/**
 * The host's message context, as the tests' fake implements it: a mutable
 * string-keyed store of flow variables. A variable that is unset reads as
 * absent (Java `null`).
 */
module MessageContexts {
  import opened Wrappers

  class MessageContext {
    var variables: map<string, string>

    constructor (initial: map<string, string>)
      ensures variables == initial
    {
      variables := initial;
    }

    /** `getVariable(name)`: the stored value, or absent when unset. */
    function GetVariable(name: string): (v: Option<string>)
      reads this
      ensures v.Some? <==> name in variables
      ensures v.Some? ==> v.value == variables[name]
    {
      if name in variables then Some(variables[name]) else None
    }

    /** `setVariable(name, value)`: stores `value` under `name`, touching no other variable. */
    method SetVariable(name: string, value: string)
      modifies this
      ensures variables == old(variables)[name := value]
    {
      variables := variables[name := value];
    }
  }
}
