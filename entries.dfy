/**
 * Building a plain object by assigning entries one after another
 * (`obj[key] = value` in a loop, or `acc[name] = value` in a reduce): later
 * assignments to a key overwrite earlier ones. Keys are treated as plain map
 * keys.
 */
module Entries {
  import opened Wrappers

  /** One `key -> value` assignment. */
  datatype Entry = Entry(key: string, value: string)

  /** One step: perform the assignment, if there is one; it binds its key and leaves every other key alone. */
  function Assign(m: map<string, string>, e: Option<Entry>): (r: map<string, string>)
    ensures e.None? ==> r == m
    ensures e.Some? ==> r.Keys == m.Keys + {e.value.key} && r[e.value.key] == e.value.value
    ensures e.Some? ==> forall k :: k in m && k != e.value.key ==> r[k] == m[k]
  {
    match e
    case None => m
    case Some(Entry(k, v)) => m[k := v]
  }

  /** The object obtained by performing the assignments in order, starting from `{}`. */
  function Collect(es: seq<Option<Entry>>): (m: map<string, string>)
    ensures forall k :: k in m ==> Some(Entry(k, m[k])) in es
    decreases |es|
  {
    if es == [] then map[] else Assign(Collect(es[..|es| - 1]), es[|es| - 1])
  }

  /** One more assignment at the end is one more step of the fold. */
  lemma CollectAppend(es: seq<Option<Entry>>, e: Option<Entry>)
    ensures Collect(es + [e]) == Assign(Collect(es), e)
  {
    assert (es + [e])[..|es|] == es;
  }

  /** A key is bound exactly when some assignment is to that key. */
  lemma {:induction false} CollectHasKey(es: seq<Option<Entry>>, key: string)
    ensures key in Collect(es) <==> exists i :: 0 <= i < |es| && es[i].Some? && es[i].value.key == key
    decreases |es|
  {
    if es != [] {
      var front := es[..|es| - 1];
      CollectHasKey(front, key);
      if key in Collect(front) {
        var i :| 0 <= i < |front| && front[i].Some? && front[i].value.key == key;
        assert es[i] == front[i];
      }
      if exists i :: 0 <= i < |es| && es[i].Some? && es[i].value.key == key {
        var i :| 0 <= i < |es| && es[i].Some? && es[i].value.key == key;
        if i < |front| {
          assert front[i] == es[i];
        }
      }
    }
  }

  /** The value bound to a key is the one of the last assignment to that key. */
  lemma {:induction false} CollectLastWins(es: seq<Option<Entry>>, i: nat)
    requires i < |es| && es[i].Some?
    requires forall j :: i < j < |es| ==> es[j].None? || es[j].value.key != es[i].value.key
    ensures es[i].value.key in Collect(es)
    ensures Collect(es)[es[i].value.key] == es[i].value.value
    decreases |es|
  {
    var front := es[..|es| - 1];
    if i < |es| - 1 {
      assert front[i] == es[i];
      CollectLastWins(front, i);
    }
  }

  /** An entry that assigns nothing can be dropped from anywhere in the sequence. */
  lemma {:induction false} CollectSkipsNone(before: seq<Option<Entry>>, after: seq<Option<Entry>>)
    ensures Collect(before + [None] + after) == Collect(before + after)
    decreases |after|
  {
    if after == [] {
      assert before + [None] + after == before + [None];
      assert before + after == before;
      CollectAppend(before, None);
    } else {
      var front := after[..|after| - 1];
      var last := after[|after| - 1];
      assert before + [None] + after == (before + [None] + front) + [last];
      assert before + after == (before + front) + [last];
      CollectAppend(before + [None] + front, last);
      CollectAppend(before + front, last);
      CollectSkipsNone(before, front);
    }
  }
}
