/**
 * Reading a callout's configured properties: the raw value is trimmed, its
 * flow-variable references are resolved, and an empty result counts as
 * absent. The two styles of the source: `Optional`/no-message exception
 * (`CalloutBase`) and `null`/explained exception (`CalloutsBase`).
 */
module PropertyAccess {
  import opened Wrappers
  import opened JavaText
  import opened VariableReferences

  /** `IllegalArgumentException`, with its message (absent for the no-argument constructor). */
  datatype IllegalArgumentException = IllegalArgumentException(message: Option<string>)

  /** The resolved value of a configured property: trimmed first, then resolved. */
  function ResolvedProperty(properties: map<string, string>, name: string, vars: map<string, string>): string
    requires name in properties
  {
    Resolve(Trim(properties[name]), vars)
  }

  /**
   * `getOptionalProperty`: absent (`Optional.empty()`, or `null` in
   * `CalloutsBase`) for a missing name or an empty resolved value, else the
   * resolved value.
   */
  function OptionalProperty(properties: map<string, string>, name: string, vars: map<string, string>): (r: Option<string>)
    ensures r.Some? <==> name in properties && ResolvedProperty(properties, name, vars) != ""
    ensures r.Some? ==> r.value == ResolvedProperty(properties, name, vars) && r.value != ""
  {
    if name !in properties then None
    else
      var value := ResolvedProperty(properties, name, vars);
      if value == "" then None else Some(value)
  }

  /** `CalloutBase.getRequiredProperty`: the optional value, or a message-less exception. */
  function RequiredProperty(properties: map<string, string>, name: string, vars: map<string, string>): (r: Result<string, IllegalArgumentException>)
    ensures r.Success? <==> OptionalProperty(properties, name, vars).Some?
    ensures r.Success? ==> r.value == OptionalProperty(properties, name, vars).value
    ensures r.Failure? ==> r.error.message.None?
  {
    match OptionalProperty(properties, name, vars)
    case Some(value) => Success(value)
    case None => Failure(IllegalArgumentException(None))
  }

  /**
   * `CalloutsBase.getRequiredProperty`: its own checks, with a message that
   * says whether the name is missing or resolves to an empty string.
   */
  function RequiredPropertyExplained(properties: map<string, string>, name: string, vars: map<string, string>): (r: Result<string, IllegalArgumentException>)
    ensures name !in properties ==> r == Failure(IllegalArgumentException(Some(name + " does not exist in properties")))
    ensures name in properties && ResolvedProperty(properties, name, vars) == "" ==>
      r == Failure(IllegalArgumentException(Some(name + " resolves to an empty string")))
  {
    if name !in properties then
      Failure(IllegalArgumentException(Some(name + " does not exist in properties")))
    else
      var value := ResolvedProperty(properties, name, vars);
      if value == "" then Failure(IllegalArgumentException(Some(name + " resolves to an empty string")))
      else Success(value)
  }

  /**
   * The two required-property styles succeed on the same inputs with the
   * same value, and both succeed exactly when the optional value is present.
   */
  lemma RequiredVariantsAgree(properties: map<string, string>, name: string, vars: map<string, string>)
    ensures RequiredPropertyExplained(properties, name, vars).Success? <==> RequiredProperty(properties, name, vars).Success?
    ensures RequiredProperty(properties, name, vars).Success? ==>
      RequiredPropertyExplained(properties, name, vars).value == RequiredProperty(properties, name, vars).value
  {
  }

  /** A value that is blank (only characters `trim()` strips) reads as absent. */
  lemma BlankPropertyIsAbsent(properties: map<string, string>, name: string, vars: map<string, string>)
    requires name in properties && AllTrimmable(properties[name])
    ensures OptionalProperty(properties, name, vars) == None
    ensures RequiredProperty(properties, name, vars).Failure?
  {
    ResolveWithoutBrace(Trim(properties[name]), vars);
  }

  /** A value without references reads as its trimmed self, unless it is blank. */
  lemma PlainPropertyIsTrimmed(properties: map<string, string>, name: string, vars: map<string, string>)
    requires name in properties && '{' !in properties[name]
    requires !AllTrimmable(properties[name])
    ensures OptionalProperty(properties, name, vars) == Some(Trim(properties[name]))
  {
    TrimLacks(properties[name], '{');
    ResolveWithoutBrace(Trim(properties[name]), vars);
  }

  /**
   * A value that is one reference, padded or not, reads as the variable's
   * value when that is set and nonempty, else as the default, else as absent.
   */
  lemma ReferencePropertyResolves(properties: map<string, string>, name: string, vars: map<string, string>,
                                  pre: string, variable: string, default: Option<string>, post: string)
    requires AllTrimmable(pre) && AllTrimmable(post)
    requires IsReference(variable) && ':' !in variable
    requires default.Some? ==> forall i :: 0 <= i < |default.value| ==> IsReferenceChar(default.value[i])
    requires name in properties
    requires properties[name] ==
      pre + ("{" + (if default.Some? then variable + ":" + default.value else variable) + "}") + post
    ensures OptionalProperty(properties, name, vars) ==
      var value := if variable in vars then vars[variable] else if default.Some? then default.value else "";
      if value == "" then None else Some(value)
  {
    var ref := if default.Some? then variable + ":" + default.value else variable;
    var core := "{" + ref + "}";
    assert core[0] == '{' && core[|core| - 1] == '}';
    TrimUnpads(pre, core, post);
    ResolveSinglePlaceholder(variable, default, vars);
  }
}
