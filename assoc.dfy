/** Ordered name/value tables as the CGI scripts see them: a process
    environment (`environ`, `process.env`, `$_SERVER`, `os.environ`), a
    JavaScript object or a PHP array with string keys. Entries keep the
    order in which their names were first added. A JavaScript object
    lists integer-like names such as `"1"` before the others, in
    ascending order. That is not modelled: it changes only the order in
    which such names are listed (`TsTestScript.ParamCells`,
    `InfoTsScript.GetEnvironmentVariables`), never which entries there
    are or what they hold. */
module Assoc {
  import opened Wrappers
  import SortedMap

  type Table = seq<(string, string)>

  /** The value of the first entry with that name (`getenv(name)`,
      `obj[name]`), None when there is none. */
  function Lookup(t: Table, name: string): (r: Option<string>)
    ensures r.None? <==> forall i :: 0 <= i < |t| ==> t[i].0 != name
    ensures r.Some? ==> exists i :: 0 <= i < |t| && t[i] == (name, r.value)
  {
    if t == [] then None
    else if t[0].0 == name then Some(t[0].1)
    else
      assert forall i :: 1 <= i < |t| ==> t[i] == t[1..][i - 1];
      Lookup(t[1..], name)
  }

  /** No name appears twice, as in a table keyed by name. */
  predicate UniqueNames(t: Table) {
    forall i, j :: 0 <= i < j < |t| ==> t[i].0 != t[j].0
  }

  /** In a table without repeated names, each entry is the one `Lookup`
      finds. */
  lemma {:induction false} LookupUnique(t: Table, i: int)
    requires UniqueNames(t) && 0 <= i < |t|
    ensures Lookup(t, t[i].0) == Some(t[i].1)
  {
    if i > 0 {
      assert t[0].0 != t[i].0;
      assert t[1..][i - 1] == t[i];
      LookupUnique(t[1..], i - 1);
    }
  }

  /** `obj[name] = value`: an existing entry is overwritten where it
      stands, a new name is added at the end. */
  function Assign(t: Table, name: string, value: string): (r: Table)
    ensures Lookup(t, name).None? ==> r == t + [(name, value)]
    ensures Lookup(t, name).Some? ==> |r| == |t|
    decreases |t|
  {
    if t == [] then [(name, value)]
    else if t[0].0 == name then [(name, value)] + t[1..]
    else [t[0]] + Assign(t[1..], name, value)
  }

  /** After the assignment the name holds the new value and every other
      name keeps its old one. */
  lemma {:induction false} AssignLookup(t: Table, name: string, value: string, n: string)
    decreases |t|
    ensures Lookup(Assign(t, name, value), n) == if n == name then Some(value) else Lookup(t, n)
  {
    if t != [] && t[0].0 != name {
      AssignLookup(t[1..], name, value, n);
      var r := Assign(t, name, value);
      assert r[0] == t[0] && r[1..] == Assign(t[1..], name, value);
    }
  }

  /** A run of assignments, in order. */
  function AssignAll(t: Table, es: seq<(string, string)>): Table
    decreases |es|
  {
    if es == [] then t else AssignAll(Assign(t, es[0].0, es[0].1), es[1..])
  }

  /** After a run of assignments a name holds its last assigned value, or
      its earlier value when the run never assigns it. */
  lemma {:induction false} AssignAllGet(t: Table, es: seq<(string, string)>, name: string)
    decreases |es|
    ensures Lookup(AssignAll(t, es), name) ==
      if SortedMap.LastValue(es, name).Some? then SortedMap.LastValue(es, name) else Lookup(t, name)
  {
    if es != [] {
      AssignLookup(t, es[0].0, es[0].1, name);
      AssignAllGet(Assign(t, es[0].0, es[0].1), es[1..], name);
    }
  }
}
