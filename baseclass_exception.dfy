/**
 * The copy of `CalloutBase` that the exception sample callout carries in its
 * own source file; its logic is the same as the library class.
 */
module BaseclassExceptionSample {
  import opened Wrappers
  import opened JavaText
  import opened MessageContexts
  import VariableReferences
  import opened PropertyAccess
  import opened Diagnostics

  class CalloutBase {
    /** The callout's configured properties; never modified. */
    const properties: map<string, string>

    constructor (properties: map<string, string>)
      ensures this.properties == properties
    {
      this.properties := properties;
    }

    /** `getOptionalProperty`: empty (`Optional.empty()`) for a missing name or an empty resolved value. */
    method GetOptionalProperty(propertyName: string, ctx: MessageContext) returns (r: Option<string>)
      ensures r == OptionalProperty(properties, propertyName, ctx.variables)
    {
      if propertyName !in properties {
        return None;
      }
      var value := ResolveVariableReferences(Trim(properties[propertyName]), ctx);
      if value == "" {
        return None;
      }
      return Some(value);
    }

    /** `getRequiredProperty`: the optional value, or an `IllegalArgumentException` without a message. */
    method GetRequiredProperty(propertyName: string, ctx: MessageContext) returns (r: Result<string, IllegalArgumentException>)
      ensures r == RequiredProperty(properties, propertyName, ctx.variables)
    {
      var value := GetOptionalProperty(propertyName, ctx);
      if value.None? {
        return Failure(IllegalArgumentException(None));
      }
      return Success(value.value);
    }

    /** `resolveVariableReferences`: the shared buffer loop. */
    method ResolveVariableReferences(spec: string, ctx: MessageContext) returns (r: string)
      ensures r == VariableReferences.Resolve(spec, ctx.variables)
    {
      r := VariableReferences.ResolveVariableReferences(spec, ctx);
    }

    /** `setExceptionVariables`, given the exception's `toString()` and its printed stack trace. */
    method SetExceptionVariables(exceptionText: string, stackTrace: string, ctx: MessageContext)
      modifies ctx
      ensures ctx.variables == WithException(old(ctx.variables), exceptionText, stackTrace)
    {
      RecordException(ctx, exceptionText, stackTrace);
    }

    /** `log`, given the statement's text and the caller's frame as text ("" when there is none). */
    method Log(logStatement: string, callSite: string, ctx: MessageContext)
      modifies ctx
      ensures ctx.variables == WithLogEntry(old(ctx.variables), logStatement, callSite)
    {
      AppendLog(ctx, logStatement, callSite);
    }
  }
}
