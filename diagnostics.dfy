/** The diagnostics collector shared by every rule of one validator tree. */
module Diagnostics {
  import opened Values

  /** `'[/%s] %s' % ('/'.join(path), msg)`: a message anchored at the current path. */
  function Format(path: seq<string>, msg: string): string {
    "[/" + Join("/", path) + "] " + msg
  }

  /** The exceptions the path operations can raise. */
  datatype Fault = NoPathLevel | IndexError

  datatype Outcome = Pass | Fail(fault: Fault)

  /** Python list indexing: a negative index counts from the end. */
  function PyIndex(i: int, n: nat): (r: Option<nat>)
    ensures r.Some? ==> r.value < n
    ensures r.Some? <==> 0 - (n as int) <= i < n
    ensures r.Some? ==> r.value == if i < 0 then i + n else i
  {
    if 0 <= i < n then Some(i) else if 0 - (n as int) <= i < 0 then Some(i + n) else None
  }

  class Errors {
    var messages: seq<string>
    var path: seq<string>
    /** Index of the most recently opened path slot; `None` until a level is first opened. */
    var pathLevel: Option<int>

    /** The state every sequence of properly nested open/close calls keeps: the marker
        names the last path slot. */
    ghost predicate Valid()
      reads this
    {
      match pathLevel
      case None => path == []
      case Some(level) => level == |path| - 1
    }

    constructor ()
      ensures Valid()
      ensures messages == [] && path == [] && pathLevel == None
    {
      messages := [];
      path := [];
      pathLevel := None;
    }

    method Count() returns (n: nat)
      ensures n == |messages|
    {
      n := |messages|;
    }

    method Add(msg: string)
      modifies this
      ensures messages == old(messages) + [Format(old(path), msg)]
      ensures path == old(path) && pathLevel == old(pathLevel)
    {
      messages := messages + [Format(path, msg)];
    }

    /** `back_out_errors(num)`: drop the last `num` messages (all of them when fewer);
        nothing happens when `num <= 0`. */
    method BackOutErrors(num: int)
      modifies this
      ensures num <= 0 ==> messages == old(messages)
      ensures num > 0 && num <= |old(messages)| ==> messages == old(messages)[..|old(messages)| - num]
      ensures num > |old(messages)| ==> messages == []
      ensures path == old(path) && pathLevel == old(pathLevel)
    {
      if num > 0 {
        var keep := if num <= |messages| then |messages| - num else 0;
        messages := messages[..keep];
      }
    }

    /** `path_add_level(value)`: open a new slot at the end of the path. */
    method PathAddLevel(value: string)
      modifies this
      ensures path == old(path) + [value]
      ensures pathLevel == Some(|old(path)|)
      ensures messages == old(messages)
      ensures Valid()
    {
      pathLevel := Some(|path|);
      path := path + [value];
    }

    /** `path_remove_level()`: delete the slot at the marker and step the marker back.
        Raises when no level was ever opened, and (through the negative index `-1`) when
        every opened level has already been removed. */
    method PathRemoveLevel() returns (r: Outcome)
      requires Valid()
      modifies this
      ensures Valid()
      ensures old(pathLevel).None? ==> r == Fail(NoPathLevel)
      ensures old(pathLevel).Some? && old(path) == [] ==> r == Fail(IndexError)
      ensures r.Fail? ==> path == old(path) && pathLevel == old(pathLevel)
      ensures r == Pass <==> old(path) != []
      ensures r == Pass ==> path == old(path)[..|old(path)| - 1]
      ensures r == Pass ==> pathLevel == Some(old(pathLevel).value - 1)
      ensures messages == old(messages)
    {
      if pathLevel.None? {
        return Fail(NoPathLevel);
      }
      var level := pathLevel.value;
      var j := PyIndex(level, |path|);
      if j.None? {
        return Fail(IndexError);
      }
      path := path[..j.value] + path[j.value + 1..];
      pathLevel := Some(level - 1);
      r := Pass;
    }

    /** `path_update_value(value)`: relabel the slot at the marker; raises in the same
        two cases as `path_remove_level`. */
    method PathUpdateValue(value: string) returns (r: Outcome)
      requires Valid()
      modifies this
      ensures Valid()
      ensures old(pathLevel).None? ==> r == Fail(NoPathLevel)
      ensures old(pathLevel).Some? && old(path) == [] ==> r == Fail(IndexError)
      ensures r.Fail? ==> path == old(path)
      ensures r == Pass <==> old(path) != []
      ensures r == Pass ==> path == old(path)[..|old(path)| - 1] + [value]
      ensures messages == old(messages) && pathLevel == old(pathLevel)
    {
      if pathLevel.None? {
        return Fail(NoPathLevel);
      }
      var j := PyIndex(pathLevel.value, |path|);
      if j.None? {
        return Fail(IndexError);
      }
      path := path[j.value := value];
      r := Pass;
    }
  }
}
