/** `count_psql`: the number of running processes called `psql`, counted over a
    snapshot of the host's process names. */
module Processes {

  const PsqlName := "psql"

  /** How many entries of the snapshot are `psql` processes. */
  function Active(names: seq<string>): nat {
    multiset(names)[PsqlName]
  }

  /** The loop of `count_psql`: one pass over the process names, adding one for
      every name equal to `psql`. */
  method CountPsql(names: seq<string>) returns (count: nat)
    ensures count == Active(names)
    ensures count <= |names|
    ensures count == |names| <==> forall i :: 0 <= i < |names| ==> names[i] == PsqlName
  {
    count := 0;
    for i := 0 to |names|
      invariant count == Active(names[..i])
      invariant count <= i
      invariant count == i <==> forall j :: 0 <= j < i ==> names[j] == PsqlName
    {
      assert names[..i + 1] == names[..i] + [names[i]];
      if names[i] == PsqlName {
        count := count + 1;
      }
    }
    assert names[..|names|] == names;
  }
}
