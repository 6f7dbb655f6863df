/**
 * The Python `dict` (title to body, both `str`) the section parser fills, as an association list in
 * insertion order. Assigning to a key that is already present keeps its
 * position and replaces its value; a new key goes to the end.
 */
module SectionMap {
  import opened Wrappers

  datatype Entry = Entry(key: string, value: string)

  predicate HasKey(m: seq<Entry>, k: string) {
    exists i :: 0 <= i < |m| && m[i].key == k
  }

  predicate HasValue(m: seq<Entry>, v: string) {
    exists i :: 0 <= i < |m| && m[i].value == v
  }

  /** A dict never holds a key twice. */
  predicate DistinctKeys(m: seq<Entry>) {
    forall i, j :: 0 <= i < j < |m| ==> m[i].key != m[j].key
  }

  /** Position of `k` in `m`. */
  function IndexOf(m: seq<Entry>, k: string): (r: Option<nat>)
    ensures r.Some? ==> r.value < |m| && m[r.value].key == k
    ensures r.Some? ==> forall j :: 0 <= j < r.value ==> m[j].key != k
    ensures r.None? <==> !HasKey(m, k)
  {
    if m == [] then None
    else if m[0].key == k then Some(0)
    else match IndexOf(m[1..], k)
      case None => None
      case Some(i) => Some(i + 1)
  }

  /** `m.get(k)`. */
  function Get(m: seq<Entry>, k: string): Option<string> {
    match IndexOf(m, k)
    case None => None
    case Some(i) => Some(m[i].value)
  }

  /** `m[k] = v`. */
  function Put(m: seq<Entry>, k: string, v: string): (r: seq<Entry>)
    ensures !HasKey(m, k) ==> r == m + [Entry(k, v)]
    ensures HasKey(m, k) ==> |r| == |m| && r[IndexOf(m, k).value] == Entry(k, v)
    ensures forall i :: 0 <= i < |m| ==> r[i].key == m[i].key
    ensures forall i :: 0 <= i < |m| && m[i].key != k ==> r[i] == m[i]
    ensures forall i :: 0 <= i < |r| ==> r[i] == Entry(k, v) || (i < |m| && r[i] == m[i])
    ensures HasKey(r, k)
    ensures DistinctKeys(m) ==> DistinctKeys(r)
  {
    match IndexOf(m, k)
    case None =>
      assert forall i :: 0 <= i < |m| ==> m[i].key != k;
      var r := m + [Entry(k, v)];
      assert r[|m|].key == k;
      r
    case Some(i) => m[i := Entry(k, v)]
  }

  /** The first position holding `k` is what `IndexOf` finds. */
  lemma IndexOfAt(m: seq<Entry>, k: string, i: nat)
    requires i < |m| && m[i].key == k
    requires forall j :: 0 <= j < i ==> m[j].key != k
    ensures IndexOf(m, k) == Some(i)
  {
    assert HasKey(m, k);
  }

  /** After `m[k] = v`, `k` maps to `v` and every other key keeps its value. */
  lemma GetPut(m: seq<Entry>, k: string, v: string, k': string)
    ensures Get(Put(m, k, v), k') == if k' == k then Some(v) else Get(m, k')
  {
    var r := Put(m, k, v);
    PutKeys(m, k, v, k');
    if k' == k {
      match IndexOf(m, k)
      case None => IndexOfAt(r, k, |m|);
      case Some(i) => IndexOfAt(r, k, i);
    } else if HasKey(m, k') {
      var i := IndexOf(m, k').value;
      IndexOfAt(r, k', i);
    }
  }

  /** `m[k] = v` adds `k` to the keys and no other key. */
  lemma PutKeys(m: seq<Entry>, k: string, v: string, k': string)
    ensures HasKey(Put(m, k, v), k') <==> HasKey(m, k') || k' == k
  {
    var r := Put(m, k, v);
    if HasKey(r, k') && k' != k {
      var i :| 0 <= i < |r| && r[i].key == k';
      if i < |m| { assert m[i].key == k'; }
    }
    if HasKey(m, k') {
      var i :| 0 <= i < |m| && m[i].key == k';
      assert r[i].key == k';
    }
  }

  /** The entries `es` assigned one after another, in order, starting from `m`. */
  function PutAll(m: seq<Entry>, es: seq<Entry>): seq<Entry>
    decreases |es|
  {
    if es == [] then m
    else Put(PutAll(m, es[..|es| - 1]), es[|es| - 1].key, es[|es| - 1].value)
  }

  /** The value of the last entry for `k` in `es`: the one a last-write-wins dict keeps. */
  function LastValue(es: seq<Entry>, k: string): (r: Option<string>)
    ensures r.None? <==> !HasKey(es, k)
    decreases |es|
  {
    if es == [] then None
    else if es[|es| - 1].key == k then Some(es[|es| - 1].value)
    else
      HasKeyInit(es, k);
      LastValue(es[..|es| - 1], k)
  }

  lemma PutAllLast(m: seq<Entry>, es: seq<Entry>, e: Entry)
    ensures PutAll(m, es + [e]) == Put(PutAll(m, es), e.key, e.value)
  {
    assert (es + [e])[..|es|] == es;
  }

  /** Last write wins: a key ends up with its last assigned value, or its old one if never assigned. */
  lemma {:induction false} PutAllLastWins(m: seq<Entry>, es: seq<Entry>, k: string)
    ensures Get(PutAll(m, es), k) == if HasKey(es, k) then LastValue(es, k) else Get(m, k)
    decreases |es|
  {
    if es != [] {
      var init, last := es[..|es| - 1], es[|es| - 1];
      PutAllLastWins(m, init, k);
      GetPut(PutAll(m, init), last.key, last.value, k);
      HasKeyInit(es, k);
    }
  }

  /** A key of `es` other than its last entry's is a key of the entries before it. */
  lemma HasKeyInit(es: seq<Entry>, k: string)
    requires es != []
    ensures HasKey(es, k) <==> HasKey(es[..|es| - 1], k) || es[|es| - 1].key == k
  {
    var init := es[..|es| - 1];
    if HasKey(es, k) && es[|es| - 1].key != k {
      var i :| 0 <= i < |es| && es[i].key == k;
      assert init[i].key == k;
    }
    if HasKey(init, k) {
      var i :| 0 <= i < |init| && init[i].key == k;
      assert es[i].key == k;
    }
  }

  /** The keys after the assignments are the old keys plus the assigned ones. */
  lemma {:induction false} PutAllKeys(m: seq<Entry>, es: seq<Entry>, k: string)
    ensures HasKey(PutAll(m, es), k) <==> HasKey(m, k) || HasKey(es, k)
    decreases |es|
  {
    if es != [] {
      var init, last := es[..|es| - 1], es[|es| - 1];
      PutAllKeys(m, init, k);
      PutKeys(PutAll(m, init), last.key, last.value, k);
      HasKeyInit(es, k);
    }
  }

  /** Assignments never create a repeated key. */
  lemma {:induction false} PutAllDistinct(m: seq<Entry>, es: seq<Entry>)
    requires DistinctKeys(m)
    ensures DistinctKeys(PutAll(m, es))
    decreases |es|
  {
    if es != [] {
      PutAllDistinct(m, es[..|es| - 1]);
    }
  }

  /** Each assignment adds at most one entry. */
  lemma {:induction false} PutAllSize(m: seq<Entry>, es: seq<Entry>)
    ensures |PutAll(m, es)| <= |m| + |es|
    decreases |es|
  {
    if es != [] {
      PutAllSize(m, es[..|es| - 1]);
    }
  }

  /** Every stored value was in the old map or among the assigned entries. */
  lemma {:induction false} PutAllValues(m: seq<Entry>, es: seq<Entry>)
    ensures forall i :: 0 <= i < |PutAll(m, es)| ==> HasValue(m, PutAll(m, es)[i].value) || HasValue(es, PutAll(m, es)[i].value)
    decreases |es|
  {
    if es != [] {
      var init, last := es[..|es| - 1], es[|es| - 1];
      PutAllValues(m, init);
      var p := PutAll(m, init);
      var r := PutAll(m, es);
      forall i | 0 <= i < |r| ensures HasValue(m, r[i].value) || HasValue(es, r[i].value) {
        if r[i] == last {
          assert es[|es| - 1].value == r[i].value;
        } else if HasValue(init, p[i].value) {
          var j :| 0 <= j < |init| && init[j].value == p[i].value;
          assert es[j].value == p[i].value;
        }
      }
    }
  }

  /** Assigning keys that are all new, and all different, only appends them. */
  lemma {:induction false} PutAllFresh(m: seq<Entry>, es: seq<Entry>)
    requires DistinctKeys(m + es)
    ensures PutAll(m, es) == m + es
    decreases |es|
  {
    if es != [] {
      var init, last := es[..|es| - 1], es[|es| - 1];
      assert m + es == (m + init) + [last];
      assert DistinctKeys(m + init) by {
        forall i, j | 0 <= i < j < |m + init| ensures (m + init)[i].key != (m + init)[j].key {
          assert (m + init)[i] == (m + es)[i] && (m + init)[j] == (m + es)[j];
        }
      }
      PutAllFresh(m, init);
      forall i | 0 <= i < |m + init| ensures (m + init)[i].key != last.key {
        assert (m + init)[i] == (m + es)[i] && last == (m + es)[|m + es| - 1];
      }
    }
  }
}
