/**
 * The string lists of discovery.go: trimmed, without empty entries, without repetition up to letter
 * case, and sorted. strings.ToLower and strings.TrimSpace are parameters; all that is needed of them
 * is that trimming twice is trimming once.
 */
module TextLists {
  import opened Wrappers
  import opened Octets
  import opened Sorting

  type Text = Octets

  datatype TextOps = TextOps(lower: Text -> Text, trim: Text -> Text)

  ghost predicate Sane(ops: TextOps) {
    forall s :: ops.trim(ops.trim(s)) == ops.trim(s)
  }

  // ---- the order of sort.Strings ----

  predicate TextLeq(a: Text, b: Text) {
    a == [] || (b != [] && (a[0] < b[0] || (a[0] == b[0] && TextLeq(a[1..], b[1..]))))
  }

  lemma {:induction false} TextLeqTotal(a: Text, b: Text)
    ensures TextLeq(a, b) || TextLeq(b, a)
    ensures TextLeq(a, b) && TextLeq(b, a) ==> a == b
  {
    if a != [] && b != [] {
      TextLeqTotal(a[1..], b[1..]);
      assert a == [a[0]] + a[1..] && b == [b[0]] + b[1..];
    }
  }

  lemma {:induction false} TextLeqTransitive(a: Text, b: Text, c: Text)
    requires TextLeq(a, b) && TextLeq(b, c)
    ensures TextLeq(a, c)
  {
    if a != [] && a[0] == b[0] == c[0] {
      TextLeqTransitive(a[1..], b[1..], c[1..]);
    }
  }

  /** The order is that of the first byte in which two texts differ; a prefix comes first. */
  lemma {:induction false} TextLeqByBytes(a: Text, b: Text)
    ensures TextLeq(a, b)
       <==> || (|a| <= |b| && a == b[..|a|])
            || exists k | 0 <= k < |a| && k < |b| :: a[..k] == b[..k] && a[k] < b[k]
  {
    if a != [] && b != [] {
      TextLeqByBytes(a[1..], b[1..]);
      assert a == [a[0]] + a[1..] && b == [b[0]] + b[1..];
      if a[0] < b[0] {
        assert a[..0] == b[..0];
      } else if a[0] == b[0] {
        forall k | 0 < k <= |a| && k <= |b| ensures a[..k] == b[..k] <==> a[1..][..k - 1] == b[1..][..k - 1] {
          assert a[..k] == [a[0]] + a[1..][..k - 1] && b[..k] == [b[0]] + b[1..][..k - 1];
        }
        if k :| 0 <= k < |a| - 1 && k < |b| - 1 && a[1..][..k] == b[1..][..k] && a[1..][k] < b[1..][k] {
          assert a[..k + 1] == b[..k + 1] && a[k + 1] < b[k + 1];
        }
        if k :| 0 <= k < |a| && k < |b| && a[..k] == b[..k] && a[k] < b[k] {
          assert a[1..][..k - 1] == b[1..][..k - 1] && a[1..][k - 1] < b[1..][k - 1];
        }
      }
    }
  }

  lemma TextOrder()
    ensures TotalOrder(TextLeq)
  {
    forall a, b ensures TextLeq(a, b) || TextLeq(b, a)
                ensures TextLeq(a, b) && TextLeq(b, a) ==> a == b
    {
      TextLeqTotal(a, b);
    }
    forall a, b, c | TextLeq(a, b) && TextLeq(b, c) ensures TextLeq(a, c) {
      TextLeqTransitive(a, b, c);
    }
  }

  // ---- appendUniqueStrings ----

  predicate HasKey(list: seq<Text>, key: Text, ops: TextOps) {
    exists i :: 0 <= i < |list| && ops.lower(list[i]) == key
  }

  /** The list with one more value, unless it is blank or known. */
  function Accept(list: seq<Text>, value: Text, ops: TextOps): (r: seq<Text>) {
    var t := ops.trim(value);
    if t == [] || HasKey(list, ops.lower(t), ops) then list else list + [t]
  }

  function Gather(list: seq<Text>, values: seq<Text>, ops: TextOps): (r: seq<Text>) {
    if values == [] then list else Accept(Gather(list, values[..|values| - 1], ops), values[|values| - 1], ops)
  }

  function AppendUnique(list: seq<Text>, values: seq<Text>, ops: TextOps): (r: seq<Text>) {
    Sort(Gather(list, values, ops), TextLeq)
  }

  method AppendUniqueStrings(existing: seq<Text>, values: seq<Text>, ops: TextOps) returns (r: seq<Text>)
    ensures r == AppendUnique(existing, values, ops)
  {
    var seen: set<Text> := {};
    for i := 0 to |existing|
      invariant forall key :: key in seen <==> HasKey(existing[..i], key, ops)
    {
      HasKeySnoc(existing[..i], existing[i], ops);
      assert existing[..i + 1] == existing[..i] + [existing[i]];
      seen := seen + {ops.lower(existing[i])};
    }
    assert existing[..|existing|] == existing;
    r := existing;
    for i := 0 to |values|
      invariant r == Gather(existing, values[..i], ops)
      invariant forall key :: key in seen <==> HasKey(r, key, ops)
    {
      hide HasKey;
      assert values[..i + 1][..i] == values[..i];
      var v := ops.trim(values[i]);
      if v == [] {
        continue;
      }
      var key := ops.lower(v);
      if key in seen {
        continue;
      }
      HasKeySnoc(r, v, ops);
      seen := seen + {key};
      r := r + [v];
    }
    assert values[..|values|] == values;
    r := Sort(r, TextLeq);
  }

  lemma HasKeySnoc(list: seq<Text>, t: Text, ops: TextOps)
    ensures forall key :: HasKey(list + [t], key, ops) <==> HasKey(list, key, ops) || key == ops.lower(t)
  {
    var more := list + [t];
    assert more[|list|] == t;
    forall key ensures HasKey(more, key, ops) <==> HasKey(list, key, ops) || key == ops.lower(t) {
      if i :| 0 <= i < |list| && ops.lower(list[i]) == key {
        assert more[i] == list[i];
      }
      if i :| 0 <= i < |more| && ops.lower(more[i]) == key {
        assert i < |list| ==> more[i] == list[i];
      }
    }
  }

  /** appendSource adds its sources one call at a time. */
  function AppendEach(list: seq<Text>, values: seq<Text>, ops: TextOps): (r: seq<Text>) {
    if values == [] then list
    else AppendUnique(AppendEach(list, values[..|values| - 1], ops), [values[|values| - 1]], ops)
  }

  method AppendSource(existing: seq<Text>, sources: seq<Text>, ops: TextOps) returns (r: seq<Text>)
    ensures r == AppendEach(existing, sources, ops)
  {
    r := existing;
    for i := 0 to |sources|
      invariant r == AppendEach(existing, sources[..i], ops)
    {
      assert sources[..i + 1][..i] == sources[..i];
      r := AppendUniqueStrings(r, [sources[i]], ops);
    }
    assert sources[..|sources|] == sources;
  }

  // ---- the form of the lists ----

  /** No blank entry and no two entries that differ only in case. */
  ghost predicate Clean(list: seq<Text>, ops: TextOps) {
    && (forall i | 0 <= i < |list| :: list[i] != [] && ops.trim(list[i]) == list[i])
    && (forall i, j | 0 <= i < j < |list| :: ops.lower(list[i]) != ops.lower(list[j]))
  }

  ghost predicate Normal(list: seq<Text>, ops: TextOps) {
    Clean(list, ops) && Sorted(list, TextLeq)
  }

  /** The entry with that key. */
  function Entry(list: seq<Text>, key: Text, ops: TextOps): (r: Option<Text>)
    ensures r.Some? ==> r.value in list && ops.lower(r.value) == key
    ensures r.None? ==> forall x | x in list :: ops.lower(x) != key
  {
    if list == [] then None
    else if ops.lower(list[0]) == key then Some(list[0])
    else Entry(list[1..], key, ops)
  }

  /** The first of the values that trims to an entry with that key. */
  function FirstValue(values: seq<Text>, key: Text, ops: TextOps): (r: Option<Text>) {
    if values == [] then None
    else
      var before := FirstValue(values[..|values| - 1], key, ops);
      var t := ops.trim(values[|values| - 1]);
      if before.Some? then before else if t != [] && ops.lower(t) == key then Some(t) else None
  }

  /** The value, trimmed, is an entry with that key. */
  predicate Brings(value: Text, key: Text, ops: TextOps) {
    ops.trim(value) != [] && ops.lower(ops.trim(value)) == key
  }

  lemma {:induction false} NoValue(values: seq<Text>, key: Text, ops: TextOps)
    requires forall v | v in values :: !Brings(v, key, ops)
    ensures FirstValue(values, key, ops) == None
  {
    if values != [] {
      NoValue(values[..|values| - 1], key, ops);
      assert values[|values| - 1] in values;
    }
  }

  /** It is the trimmed text of the first of the values that brings the key. */
  lemma {:induction false} FirstValueIs(values: seq<Text>, i: nat, key: Text, ops: TextOps)
    requires i < |values| && Brings(values[i], key, ops) && forall k | 0 <= k < i :: !Brings(values[k], key, ops)
    ensures FirstValue(values, key, ops) == Some(ops.trim(values[i]))
  {
    var front := values[..|values| - 1];
    if i < |front| {
      FirstValueIs(front, i, key, ops);
    } else {
      NoValue(front, key, ops);
    }
  }

  lemma EntryIsMember(list: seq<Text>, x: Text, ops: TextOps)
    requires Clean(list, ops)
    ensures x in list <==> Entry(list, ops.lower(x), ops) == Some(x)
  {
  }

  lemma EntrySnoc(list: seq<Text>, t: Text, key: Text, ops: TextOps)
    requires Clean(list + [t], ops)
    ensures Entry(list + [t], key, ops)
         == if Entry(list, key, ops).Some? then Entry(list, key, ops) else if ops.lower(t) == key then Some(t) else None
  {
    var more := list + [t];
    assert forall i | 0 <= i < |list| :: more[i] == list[i];
    assert Clean(list, ops);
    assert more[|list|] == t && t in more;
    EntryIsMember(more, t, ops);
    if Entry(list, key, ops).Some? {
      EntryIsMember(more, Entry(list, key, ops).value, ops);
    }
  }

  /** A list's entries decide what the list is. */
  lemma NormalUnique(a: seq<Text>, b: seq<Text>, ops: TextOps)
    requires Normal(a, ops) && Normal(b, ops)
    requires forall key :: Entry(a, key, ops) == Entry(b, key, ops)
    ensures a == b
  {
    forall x ensures x in a <==> x in b {
      EntryIsMember(a, x, ops);
      EntryIsMember(b, x, ops);
    }
    assert (set x | x in a) == (set x | x in b);
    assert Distinct(a) && Distinct(b);
    hide Entry, Normal, Clean;
    DistinctBag(a);
    DistinctBag(b);
    TextOrder();
    assert Sorted(a, TextLeq) && Sorted(b, TextLeq) by {
      NormalSorted(a, ops);
      NormalSorted(b, ops);
    }
    ElementsDecideSorted(a, b, TextLeq);
  }

  lemma NormalSorted(a: seq<Text>, ops: TextOps)
    requires Normal(a, ops)
    ensures Sorted(a, TextLeq)
  {
  }

  lemma AcceptKeepsClean(list: seq<Text>, value: Text, ops: TextOps)
    requires Clean(list, ops) && Sane(ops)
    ensures Clean(Accept(list, value, ops), ops)
  {
    var t := ops.trim(value);
    if t != [] && !HasKey(list, ops.lower(t), ops) {
      var more := list + [t];
      assert forall i | 0 <= i < |list| :: more[i] == list[i] && ops.lower(list[i]) != ops.lower(t);
      assert ops.trim(t) == t;
    }
  }

  lemma AcceptEntry(list: seq<Text>, value: Text, key: Text, ops: TextOps)
    requires Clean(list, ops) && Sane(ops)
    ensures var t := ops.trim(value);
            Entry(Accept(list, value, ops), key, ops)
            == if Entry(list, key, ops).Some? then Entry(list, key, ops)
               else if t != [] && ops.lower(t) == key then Some(t) else None
  {
    var t := ops.trim(value);
    AcceptKeepsClean(list, value, ops);
    if t != [] {
      if HasKey(list, ops.lower(t), ops) {
        var i :| 0 <= i < |list| && ops.lower(list[i]) == ops.lower(t);
        assert list[i] in list;
      } else {
        EntrySnoc(list, t, key, ops);
      }
    }
  }

  lemma {:induction false} GatherEntries(list: seq<Text>, values: seq<Text>, key: Text, ops: TextOps)
    requires Clean(list, ops) && Sane(ops)
    ensures Clean(Gather(list, values, ops), ops)
    ensures Entry(Gather(list, values, ops), key, ops)
         == if Entry(list, key, ops).Some? then Entry(list, key, ops) else FirstValue(values, key, ops)
  {
    if values != [] {
      var front, last := values[..|values| - 1], values[|values| - 1];
      GatherEntries(list, front, key, ops);
      hide Clean, Accept, Entry, Sane;
      AcceptKeepsClean(Gather(list, front, ops), last, ops);
      AcceptEntry(Gather(list, front, ops), last, key, ops);
    }
  }

  lemma PermutedClean(a: seq<Text>, b: seq<Text>, key: Text, ops: TextOps)
    requires Clean(a, ops) && multiset(a) == multiset(b)
    ensures Clean(b, ops) && Entry(b, key, ops) == Entry(a, key, ops)
  {
    forall x ensures x in a <==> x in b {
      assert x in multiset(a) <==> x in multiset(b);
    }
    assert Distinct(a);
    assert Distinct(b) by {
      hide Clean;
      DistinctBag(a);
      BagDistinct(b);
    }
    forall i, j | 0 <= i < j < |b| ensures ops.lower(b[i]) != ops.lower(b[j]) {
      assert b[i] in a && b[j] in a && b[i] != b[j];
    }
    forall i | 0 <= i < |b| ensures b[i] != [] && ops.trim(b[i]) == b[i] {
      assert b[i] in a;
    }
    if Entry(a, key, ops).Some? {
      EntryIsMember(b, Entry(a, key, ops).value, ops);
    }
  }

  /**
   * The result is in normal form, and every key has the entry it had; a new key has the first of the
   * values that brings it.
   */
  lemma AppendUniqueEntries(list: seq<Text>, values: seq<Text>, key: Text, ops: TextOps)
    requires Clean(list, ops) && Sane(ops)
    ensures Normal(AppendUnique(list, values, ops), ops)
    ensures Entry(AppendUnique(list, values, ops), key, ops)
         == if Entry(list, key, ops).Some? then Entry(list, key, ops) else FirstValue(values, key, ops)
  {
    var gathered := Gather(list, values, ops);
    GatherEntries(list, values, key, ops);
    TextOrder();
    SortSorts(gathered, TextLeq);
    hide Clean, Entry, Gather, Sane, TotalOrder;
    PermutedClean(gathered, Sort(gathered, TextLeq), key, ops);
  }

  lemma {:induction false} FirstValueOfClean(list: seq<Text>, key: Text, ops: TextOps)
    requires Clean(list, ops)
    ensures FirstValue(list, key, ops) == Entry(list, key, ops)
  {
    if list != [] {
      var front, last := list[..|list| - 1], list[|list| - 1];
      assert list == front + [last];
      assert Clean(front, ops) && last != [] && ops.trim(last) == last;
      FirstValueOfClean(front, key, ops);
      EntrySnoc(front, last, key, ops);
    }
  }

  /** On lists in normal form, appending is a left-biased union. */
  lemma AppendNormal(a: seq<Text>, b: seq<Text>, key: Text, ops: TextOps)
    requires Normal(a, ops) && Normal(b, ops) && Sane(ops)
    ensures Normal(AppendUnique(a, b, ops), ops)
    ensures Entry(AppendUnique(a, b, ops), key, ops)
         == if Entry(a, key, ops).Some? then Entry(a, key, ops) else Entry(b, key, ops)
  {
    AppendUniqueEntries(a, b, key, ops);
    FirstValueOfClean(b, key, ops);
  }

  lemma AppendAssociative(a: seq<Text>, b: seq<Text>, c: seq<Text>, ops: TextOps)
    requires Normal(a, ops) && Normal(b, ops) && Normal(c, ops) && Sane(ops)
    ensures AppendUnique(AppendUnique(a, b, ops), c, ops) == AppendUnique(a, AppendUnique(b, c, ops), ops)
  {
    hide Normal, Entry, AppendUnique, Sane;
    var ab, bc := AppendUnique(a, b, ops), AppendUnique(b, c, ops);
    AppendNormal(a, b, [], ops);
    AppendNormal(b, c, [], ops);
    AppendNormal(ab, c, [], ops);
    AppendNormal(a, bc, [], ops);
    forall key ensures Entry(AppendUnique(ab, c, ops), key, ops) == Entry(AppendUnique(a, bc, ops), key, ops) {
      AppendNormal(a, b, key, ops);
      AppendNormal(b, c, key, ops);
      AppendNormal(ab, c, key, ops);
      AppendNormal(a, bc, key, ops);
    }
    NormalUnique(AppendUnique(ab, c, ops), AppendUnique(a, bc, ops), ops);
  }

  lemma AppendIdempotent(a: seq<Text>, ops: TextOps)
    requires Normal(a, ops) && Sane(ops)
    ensures AppendUnique(a, a, ops) == a && AppendUnique([], a, ops) == a && AppendUnique(a, [], ops) == a
  {
    EmptyNormal(ops);
    hide Normal, AppendUnique, Sane;
    forall key
      ensures Entry(AppendUnique(a, a, ops), key, ops) == Entry(a, key, ops)
      ensures Entry(AppendUnique([], a, ops), key, ops) == Entry(a, key, ops)
      ensures Entry(AppendUnique(a, [], ops), key, ops) == Entry(a, key, ops)
    {
      AppendNormal(a, a, key, ops);
      AppendNormal([], a, key, ops);
      AppendNormal(a, [], key, ops);
    }
    AppendNormal(a, a, [], ops);
    AppendNormal([], a, [], ops);
    AppendNormal(a, [], [], ops);
    NormalUnique(AppendUnique(a, a, ops), a, ops);
    NormalUnique(AppendUnique([], a, ops), a, ops);
    NormalUnique(AppendUnique(a, [], ops), a, ops);
  }

  lemma EmptyNormal(ops: TextOps)
    ensures Normal([], ops)
  {
  }

  /** The lists spell the keys they share alike. */
  ghost predicate Agree(a: seq<Text>, b: seq<Text>, ops: TextOps) {
    forall key | Entry(a, key, ops).Some? && Entry(b, key, ops).Some? :: Entry(a, key, ops) == Entry(b, key, ops)
  }

  /** The order of the two lists matters only if they spell a key differently. */
  lemma AppendCommutes(a: seq<Text>, b: seq<Text>, ops: TextOps)
    requires Normal(a, ops) && Normal(b, ops) && Sane(ops)
    ensures AppendUnique(a, b, ops) == AppendUnique(b, a, ops) <==> Agree(a, b, ops)
  {
    hide Normal, AppendUnique, Sane, Entry;
    forall key
      ensures Entry(AppendUnique(a, b, ops), key, ops) == Entry(AppendUnique(b, a, ops), key, ops)
         <==> (Entry(a, key, ops).Some? && Entry(b, key, ops).Some? ==> Entry(a, key, ops) == Entry(b, key, ops))
    {
      AppendNormal(a, b, key, ops);
      AppendNormal(b, a, key, ops);
    }
    if Agree(a, b, ops) {
      AppendNormal(a, b, [], ops);
      AppendNormal(b, a, [], ops);
      NormalUnique(AppendUnique(a, b, ops), AppendUnique(b, a, ops), ops);
    }
  }

  lemma FirstValueOfOne(value: Text, key: Text, ops: TextOps)
    ensures FirstValue([value], key, ops)
         == if ops.trim(value) != [] && ops.lower(ops.trim(value)) == key then Some(ops.trim(value)) else None
  {
    var one := [value];
    assert |one[..0]| == 0;
  }

  /** For lists in normal form, adding the sources one by one is adding them together. */
  lemma {:induction false} AppendEachIsAppendUnique(list: seq<Text>, values: seq<Text>, ops: TextOps)
    requires Normal(list, ops) && Sane(ops)
    ensures AppendEach(list, values, ops) == AppendUnique(list, values, ops)
  {
    if values == [] {
      AppendIdempotent(list, ops);
    } else {
      var front, last := values[..|values| - 1], values[|values| - 1];
      AppendEachIsAppendUnique(list, front, ops);
      var before := AppendUnique(list, front, ops);
      AppendUniqueEntries(list, front, [], ops);
      AppendUniqueEntries(list, values, [], ops);
      AppendUniqueEntries(before, [last], [], ops);
      forall key
        ensures Entry(AppendUnique(before, [last], ops), key, ops) == Entry(AppendUnique(list, values, ops), key, ops)
      {
        AppendUniqueEntries(list, front, key, ops);
        AppendUniqueEntries(list, values, key, ops);
        AppendUniqueEntries(before, [last], key, ops);
        FirstValueOfOne(last, key, ops);
      }
      hide Normal, AppendUnique, Entry;
      NormalUnique(AppendUnique(before, [last], ops), AppendUnique(list, values, ops), ops);
    }
  }
}
