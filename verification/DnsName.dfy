/**
 * The DNS name codec of dnswire.go (RFC 1035 sections 3.1 and 4.1.4): an encoder, and a decoder that
 * follows compression pointers by calling itself.
 */
module DnsName {
  import opened Wrappers
  import opened Octets

  const DOT: Octet := 46
  const MAX_LABEL := 63
  const POINTERS := 0x4000 // a pointer has 14 bits

  // ---- decoding ----

  /** What one call reads by itself: its labels, where it stops, and the pointer it ends on. */
  datatype Walked = Walked(labels: seq<Octets>, next: nat, target: Option<nat>)

  /** A length byte with both top bits set, that is at least 0xC0, starts a pointer. */
  function Walk(msg: Octets, offset: nat): (w: Walked)
    ensures offset <= w.next && (offset < |msg| ==> w.next <= |msg|)
    ensures w.target.Some? ==> w.target.value < POINTERS
    decreases |msg| - offset
  {
    if offset >= |msg| then Walked([], offset, None)
    else
      var length := msg[offset];
      var start := offset + 1;
      if length == 0 then Walked([], start, None)
      else if length >= 0xC0 then
        if start >= |msg| then Walked([], offset, None)
        else Walked([], offset + 2, Some(Big16At(msg, offset) % POINTERS))
      else if start + length > |msg| then Walked([], start, None)
      else
        var rest := Walk(msg, start + length);
        Behind([msg[start..start + length]], rest)
  }

  /** One turn of the loop. */
  lemma WalkStep(msg: Octets, offset: nat)
    ensures offset >= |msg| ==> Walk(msg, offset) == Walked([], offset, None)
    ensures offset < |msg| ==>
              var (length, start) := (msg[offset], offset + 1);
              var end := start + length;
              && (length == 0 ==> Walk(msg, offset) == Walked([], start, None))
              && (0 < length < 0xC0 ==>
                    Walk(msg, offset)
                    == if end > |msg| then Walked([], start, None) else Behind([msg[start..end]], Walk(msg, end)))
              && (0xC0 <= length && start >= |msg| ==> Walk(msg, offset) == Walked([], offset, None))
              && (0xC0 <= length && start < |msg| ==>
                    Walk(msg, offset) == Walked([], offset + 2, Some(Big16At(msg, offset) % POINTERS)))
  {
    hide Behind, Big16At;
  }

  /** A walk that has read `labels` before it goes on as `w`. */
  function Behind(labels: seq<Octets>, w: Walked): (r: Walked) {
    w.(labels := labels + w.labels)
  }

  lemma BehindNothing(labels: seq<Octets>, w: Walked)
    ensures w.labels == [] ==> Behind(labels, w) == w.(labels := labels)
    ensures labels == [] ==> Behind(labels, w) == w
  {
    assert labels + [] == labels && [] + w.labels == w.labels;
  }

  lemma BehindTwice(first: seq<Octets>, second: seq<Octets>, w: Walked)
    ensures Behind(first, Behind(second, w)) == Behind(first + second, w)
  {
    assert first + (second + w.labels) == (first + second) + w.labels;
  }

  /** The recursion started at `offset` needs at most `hops` nested calls. */
  predicate Halts(msg: Octets, offset: nat, hops: nat)
    decreases hops
  {
    var target := Walk(msg, offset).target;
    target.None? || (hops > 0 && Halts(msg, target.value, hops - 1))
  }

  /** The recursion started at `offset` comes to an end. */
  ghost predicate Terminates(msg: Octets, offset: nat) {
    exists hops: nat :: Halts(msg, offset, hops)
  }

  /** The result of the decoder: the dotted name and the offset after it. */
  function DecodeWithin(msg: Octets, offset: nat, hops: nat): (r: (Octets, nat))
    requires Halts(msg, offset, hops)
    decreases hops
  {
    var w := Walk(msg, offset);
    if w.target.None? then (Join(w.labels, DOT), w.next)
    else
      var name := DecodeWithin(msg, w.target.value, hops - 1).0;
      (Join(if name == [] then w.labels else w.labels + [name], DOT), w.next)
  }

  /** RFC 1035 section 4.1.4: a name is its own labels, then those of the name its pointer points to. */
  function Labels(msg: Octets, offset: nat, hops: nat): (labels: seq<Octets>)
    requires Halts(msg, offset, hops)
    decreases hops
  {
    var w := Walk(msg, offset);
    if w.target.None? then w.labels else w.labels + Labels(msg, w.target.value, hops - 1)
  }

  lemma {:induction false} WalkedLabelsNonEmpty(msg: Octets, offset: nat)
    ensures forall l | l in Walk(msg, offset).labels :: 1 <= |l| < 0xC0
    decreases |msg| - offset
  {
    if offset < |msg| && 0 < msg[offset] < 0xC0 && offset + 1 + msg[offset] <= |msg| {
      WalkedLabelsNonEmpty(msg, offset + 1 + msg[offset]);
    }
  }

  lemma {:induction false} LabelsNonEmpty(msg: Octets, offset: nat, hops: nat)
    requires Halts(msg, offset, hops)
    ensures forall l | l in Labels(msg, offset, hops) :: l != []
    decreases hops
  {
    WalkedLabelsNonEmpty(msg, offset);
    var target := Walk(msg, offset).target;
    if target.Some? {
      LabelsNonEmpty(msg, target.value, hops - 1);
    }
  }

  /** The decoder joins names of names, and that is the join of all the labels in order. */
  lemma {:induction false} NameIsItsLabels(msg: Octets, offset: nat, hops: nat)
    requires Halts(msg, offset, hops)
    ensures DecodeWithin(msg, offset, hops) == (Join(Labels(msg, offset, hops), DOT), Walk(msg, offset).next)
    decreases hops
  {
    var w := Walk(msg, offset);
    if w.target.Some? {
      var tail := Labels(msg, w.target.value, hops - 1);
      NameIsItsLabels(msg, w.target.value, hops - 1);
      LabelsNonEmpty(msg, w.target.value, hops - 1);
      JoinEmpty(tail, DOT);
      if tail == [] {
        assert w.labels + tail == w.labels;
      } else {
        JoinNested(w.labels, tail, DOT);
      }
    }
  }

  /** More allowed hops change nothing. */
  lemma {:induction false} HopsDoNotMatter(msg: Octets, offset: nat, few: nat, many: nat)
    requires few <= many && Halts(msg, offset, few)
    ensures Halts(msg, offset, many)
    ensures DecodeWithin(msg, offset, many) == DecodeWithin(msg, offset, few)
    ensures Labels(msg, offset, many) == Labels(msg, offset, few)
    decreases few
  {
    var target := Walk(msg, offset).target;
    if target.Some? {
      HopsDoNotMatter(msg, target.value, few - 1, many - 1);
    }
  }

  /**
   * decodeDNSName. Its `visited` map is fresh in every call, and within one call the offset only grows,
   * so the recursion ends exactly when the chain of pointers does. `hops` bounds that chain; a caller
   * that has no bound gets no answer, because the call then never returns.
   */
  method DecodeDNSName(msg: Octets, offset: nat, ghost hops: nat) returns (name: Octets, next: nat)
    requires Halts(msg, offset, hops)
    ensures (name, next) == DecodeWithin(msg, offset, hops)
    decreases hops
  {
    var labels: seq<Octets> := [];
    var visited: set<nat> := {};
    next := offset;
    BehindNothing(labels, Walk(msg, offset));
    hide Walk, Join;
    while next < |msg|
      invariant offset <= next
      invariant forall v | v in visited :: v < next
      invariant Walk(msg, offset) == Behind(labels, Walk(msg, next))
      decreases |msg| - next
    {
      if next in visited {
        assert false; // the early return for a revisited offset is never taken
      }
      visited := visited + {next};
      WalkStep(msg, next);
      BehindNothing(labels, Walk(msg, next));
      var length := msg[next];
      if length == 0 {
        next := next + 1;
        break;
      }
      if length >= 0xC0 {
        if next + 1 >= |msg| {
          break;
        }
        var ptr := Big16At(msg, next) % POINTERS;
        assert Walk(msg, offset) == Walked(labels, next + 2, Some(ptr));
        var pointed, _ := DecodeDNSName(msg, ptr, hops - 1);
        if pointed != [] {
          labels := labels + [pointed];
        }
        next := next + 2;
        break;
      }
      next := next + 1;
      var end := next + length;
      if end > |msg| {
        break;
      }
      BehindTwice(labels, [msg[next..end]], Walk(msg, end));
      labels := labels + [msg[next..end]];
      next := end;
    }
    WalkStep(msg, next);
    BehindNothing(labels, Walk(msg, next));
    name := Join(labels, DOT);
  }

  // ---- when the decoder terminates ----

  /** The offset of the k-th nested call, if there is one. */
  function Hop(msg: Octets, offset: nat, k: nat): (o: Option<nat>)
    decreases k
  {
    if k == 0 then Some(offset)
    else
      var target := Walk(msg, offset).target;
      if target.None? then None else Hop(msg, target.value, k - 1)
  }

  /** No nested call starts where an earlier one started. */
  ghost predicate Acyclic(msg: Octets, offset: nat) {
    forall i: nat, j: nat | i < j && Hop(msg, offset, i).Some? && Hop(msg, offset, j).Some? ::
      Hop(msg, offset, i) != Hop(msg, offset, j)
  }

  lemma {:induction false} HaltsWhenHopsEnd(msg: Octets, offset: nat, hops: nat)
    ensures Halts(msg, offset, hops) <==> Hop(msg, offset, hops + 1).None?
    decreases hops
  {
    var target := Walk(msg, offset).target;
    if target.Some? && hops > 0 {
      HaltsWhenHopsEnd(msg, target.value, hops - 1);
    }
  }

  lemma {:induction false} HopCompose(msg: Octets, offset: nat, i: nat, k: nat)
    requires Hop(msg, offset, i).Some?
    ensures Hop(msg, offset, i + k) == Hop(msg, Hop(msg, offset, i).value, k)
    decreases i
  {
    if i > 0 {
      HopCompose(msg, Walk(msg, offset).target.value, i - 1, k);
    }
  }

  /** A chain that comes back to its start never ends. */
  lemma {:induction false} LoopNeverEnds(msg: Octets, offset: nat, period: nat, k: nat)
    requires period > 0 && Hop(msg, offset, period) == Some(offset)
    ensures Hop(msg, offset, k).Some?
    decreases k
  {
    if k <= period {
      if Hop(msg, offset, k).None? {
        HopEnded(msg, offset, k, period - k);
      }
    } else {
      LoopNeverEnds(msg, offset, period, k - period);
      HopCompose(msg, offset, period, k - period);
    }
  }

  lemma {:induction false} HopEnded(msg: Octets, offset: nat, k: nat, more: nat)
    requires Hop(msg, offset, k).None?
    ensures Hop(msg, offset, k + more).None?
    decreases k
  {
    var target := Walk(msg, offset).target;
    if target.Some? {
      HopEnded(msg, target.value, k - 1, more);
    }
  }

  /** A call that makes another one starts inside the message. */
  lemma {:induction false} HopIsInside(msg: Octets, offset: nat, k: nat)
    requires Hop(msg, offset, k + 1).Some?
    ensures Hop(msg, offset, k).Some? && Hop(msg, offset, k).value < |msg|
    decreases k
  {
    if k > 0 {
      HopIsInside(msg, Walk(msg, offset).target.value, k - 1);
    }
  }

  /** More values than there is room for: two of them are equal. */
  lemma {:induction false} Pigeonhole(values: seq<nat>, room: nat) returns (i: nat, j: nat)
    requires |values| > room && forall k | 0 <= k < |values| :: values[k] < room
    ensures i < j < |values| && values[i] == values[j]
    decreases room
  {
    if p :| 0 <= p < |values| && values[p] == room - 1 {
      if q :| 0 <= q < |values| && q != p && values[q] == room - 1 {
        return if p < q then p else q, if p < q then q else p;
      }
      var rest := values[..p] + values[p + 1..];
      i, j := Pigeonhole(rest, room - 1);
      i, j := if i < p then i else i + 1, if j < p then j else j + 1;
    } else {
      assert 0 <= values[0] < room;
      i, j := Pigeonhole(values, room - 1);
    }
  }

  lemma AcyclicHalts(msg: Octets, offset: nat)
    requires Acyclic(msg, offset)
    ensures Halts(msg, offset, |msg|)
  {
    var room := |msg|;
    HaltsWhenHopsEnd(msg, offset, room);
    if Hop(msg, offset, room + 1).Some? {
      forall k: nat | k <= room
        ensures Hop(msg, offset, k).Some? && Hop(msg, offset, k).value < room
      {
        if Hop(msg, offset, k + 1).None? {
          HopEnded(msg, offset, k + 1, room - k);
        }
        HopIsInside(msg, offset, k);
      }
      var values: seq<nat> := seq(room + 1, k requires 0 <= k < room + 1 => Hop(msg, offset, k).value);
      var i, j := Pigeonhole(values, room);
    }
  }

  /**
   * decodeDNSName terminates exactly when the pointer chain never returns to an offset it has
   * visited, and then within as many nested calls as the message has bytes.
   */
  lemma TerminatesIffAcyclic(msg: Octets, offset: nat)
    ensures Terminates(msg, offset) <==> Acyclic(msg, offset)
    ensures Terminates(msg, offset) <==> Halts(msg, offset, |msg|)
  {
    if Acyclic(msg, offset) {
      AcyclicHalts(msg, offset);
    } else {
      var i: nat, j: nat :| i < j && Hop(msg, offset, i).Some? && Hop(msg, offset, i) == Hop(msg, offset, j);
      var start := Hop(msg, offset, i).value;
      HopCompose(msg, offset, i, j - i);
      forall hops: nat ensures !Halts(msg, offset, hops) {
        LoopNeverEnds(msg, start, j - i, hops + 1);
        HopCompose(msg, offset, i, hops + 1);
        HaltsWhenHopsEnd(msg, offset, hops);
        if Hop(msg, offset, hops + 1).None? {
          HopEnded(msg, offset, hops + 1, i);
        }
      }
    }
  }

  /** Every pointer of the chain aims below the start of the name it ends. */
  predicate PointsBackward(msg: Octets, offset: nat)
    decreases offset
  {
    var target := Walk(msg, offset).target;
    target.None? || (target.value < offset && PointsBackward(msg, target.value))
  }

  /** Names compressed as RFC 1035 prescribes always decode, within as many calls as their offset. */
  lemma {:induction false} BackwardPointersHalt(msg: Octets, offset: nat)
    requires PointsBackward(msg, offset)
    ensures Halts(msg, offset, offset) && Terminates(msg, offset)
    decreases offset
  {
    var target := Walk(msg, offset).target;
    if target.Some? {
      BackwardPointersHalt(msg, target.value);
      HopsDoNotMatter(msg, target.value, target.value, offset - 1);
    }
    assert Halts(msg, offset, offset);
  }

  /** A pointer to its own first byte recurses forever, whatever surrounds it. */
  lemma SelfPointerDiverges(msg: Octets, offset: nat)
    requires offset < POINTERS && StandsAt(msg, offset, PointerTo(offset))
    ensures !Terminates(msg, offset)
  {
    PointerReads(msg, offset, offset);
    assert Hop(msg, offset, 1) == Hop(msg, offset, 0);
    assert !Acyclic(msg, offset);
    TerminatesIffAcyclic(msg, offset);
  }

  // ---- encoding ----

  /** The two bytes of a pointer to `target`. */
  function PointerTo(target: nat): (b: Octets)
    requires target < POINTERS
  {
    [0xC0 + target / 256, target % 256]
  }

  /** A label as it can be written: one length byte, which must not look like a pointer. */
  type Part = p: Octets | |p| <= MAX_LABEL

  /** RFC 1035 section 3.1: only the root label is empty. */
  predicate AllNonEmpty(labels: seq<Octets>) {
    forall l | l in labels :: l != []
  }

  /** Length-prefixed labels, without the final zero byte. */
  function EncodeLabels(labels: seq<Part>): (b: Octets) {
    if labels == [] then [] else [|labels[0]|] + labels[0] + EncodeLabels(labels[1..])
  }

  function CutLabel(part: Octets): (l: Part) {
    if |part| > MAX_LABEL then part[..MAX_LABEL] else part
  }

  function CutLabels(labels: seq<Octets>): (cut: seq<Part>)
    ensures |cut| == |labels|
    ensures forall i | 0 <= i < |labels| :: cut[i] == CutLabel(labels[i])
  {
    seq(|labels|, i requires 0 <= i < |labels| => CutLabel(labels[i]))
  }

  /** The text that is encoded: trimmed, and without one trailing dot. `trim` stands for strings.TrimSpace. */
  function Canonical(name: Octets, trim: Octets -> Octets): (t: Octets) {
    var t := trim(name);
    if t != [] && t[|t| - 1] == DOT then t[..|t| - 1] else t
  }

  function EncodeName(name: Octets, trim: Octets -> Octets): (b: Octets) {
    var t := Canonical(name, trim);
    if t == [] then [0] else EncodeLabels(CutLabels(Split(t, DOT))) + [0]
  }

  lemma {:induction false} EncodeLabelsConcat(first: seq<Part>, second: seq<Part>)
    ensures EncodeLabels(first + second) == EncodeLabels(first) + EncodeLabels(second)
  {
    if first == [] {
      assert first + second == second;
    } else {
      assert (first + second)[1..] == first[1..] + second;
      EncodeLabelsConcat(first[1..], second);
    }
  }

  lemma EncodeLabelsSnoc(front: seq<Part>, last: Part)
    ensures EncodeLabels(front + [last]) == EncodeLabels(front) + [|last|] + last
  {
    EncodeLabelsConcat(front, [last]);
    assert EncodeLabels([last]) == [|last|] + last + EncodeLabels([]);
  }

  /**
   * A dotted name, with a dot at its end or without one, is written label by label, each cut after 63
   * bytes. The root is the empty text or a single dot.
   */
  lemma DottedNameWritten(labels: seq<Octets>, cut: seq<Part>, dotted: bool, trim: Octets -> Octets)
    requires forall l | l in labels :: l != [] && DOT !in l
    requires |cut| == |labels|
    requires forall i | 0 <= i < |labels| :: cut[i] == if |labels[i]| <= 63 then labels[i] else labels[i][..63]
    requires var text := Join(labels, DOT) + if dotted then [DOT] else []; trim(text) == text
    ensures EncodeName(Join(labels, DOT) + if dotted then [DOT] else [], trim) == EncodeLabels(cut) + [0]
  {
    var t := Join(labels, DOT);
    JoinEmpty(labels, DOT);
    if labels != [] {
      JoinEndsInLast(labels);
      SplitJoin(labels, DOT);
      assert cut == CutLabels(labels);
    }
    hide Join, Split, CutLabels;
    LastDotDropped(t, dotted, trim);
  }

  lemma LastDotDropped(t: Octets, dotted: bool, trim: Octets -> Octets)
    requires t != [] ==> t[|t| - 1] != DOT
    requires trim(t + if dotted then [DOT] else []) == t + if dotted then [DOT] else []
    ensures Canonical(t + if dotted then [DOT] else [], trim) == t
  {
    assert (t + [DOT])[..|t|] == t && t + [] == t;
  }

  lemma {:induction false} JoinEndsInLast(labels: seq<Octets>)
    requires labels != [] && forall l | l in labels :: l != [] && DOT !in l
    ensures var t := Join(labels, DOT); t != [] && t[|t| - 1] != DOT
  {
    assert labels[0] in labels;
    if |labels| > 1 {
      assert forall l | l in labels[1..] :: l in labels;
      JoinEndsInLast(labels[1..]);
    }
  }

  /** encodeDNSName. */
  method EncodeDNSName(name: Octets, trim: Octets -> Octets) returns (out: Octets)
    ensures out == EncodeName(name, trim)
  {
    var t := Canonical(name, trim);
    if t == [] {
      return [0];
    }
    out := [];
    var labels := Split(t, DOT);
    ghost var cut := CutLabels(labels);
    for i := 0 to |labels|
      invariant out == EncodeLabels(cut[..i])
    {
      var part := labels[i];
      if |part| > MAX_LABEL {
        part := part[..MAX_LABEL];
      }
      EncodeLabelsSnoc(cut[..i], part);
      assert cut[..i + 1] == cut[..i] + [part];
      out := out + [|part|];
      out := out + part;
    }
    assert cut[..|labels|] == cut;
    out := out + [0];
  }

  // ---- round trips ----

  /** Reading a pointer's two bytes gives back its target. */
  lemma PointerReads(msg: Octets, offset: nat, target: nat)
    requires target < POINTERS && StandsAt(msg, offset, PointerTo(target))
    ensures Walk(msg, offset) == Walked([], offset + 2, Some(target))
  {
    assert msg[offset] == msg[offset..offset + 2][0] == 0xC0 + target / 256;
    assert msg[offset + 1] == msg[offset..offset + 2][1] == target % 256;
  }

  /** Walking over one printed label collects it in front of what the rest of the walk collects. */
  lemma WalkOverLabel(msg: Octets, offset: nat, part: Octets, code: Octets, rest: seq<Octets>, end: Walked)
    requires 0 < |part| < 0xC0 && StandsAt(msg, offset, [|part|] + part + code)
    requires Walk(msg, offset + 1 + |part|) == Behind(rest, end)
    ensures Walk(msg, offset) == Behind([part] + rest, end)
  {
    StandsAtConcat(msg, offset, [|part|] + part, code);
    StandsAtConcat(msg, offset, [|part|], part);
    assert msg[offset] == msg[offset..offset + 1][0];
    BehindTwice([part], rest, end);
  }

  /** A label may be read with any length up to 191, although lengths from 64 on are reserved. */
  lemma LongLabelDecodes(msg: Octets, offset: nat, part: Octets, hops: nat)
    requires 0 < |part| < 0xC0 && StandsAt(msg, offset, [|part|] + part + [0])
    ensures Halts(msg, offset, hops) && DecodeWithin(msg, offset, hops) == (part, offset + |part| + 2)
  {
    var end := offset + 1 + |part|;
    StandsAtConcat(msg, offset, [|part|] + part, [0]);
    assert msg[end] == msg[end..end + 1][0] == 0;
    BehindNothing([], Walked([], end + 1, None));
    WalkOverLabel(msg, offset, part, [0], [], Walked([], end + 1, None));
    assert [part] + [] + [] == [part];
    hide Walk;
  }

  /** Walking over printed labels collects them and goes on behind them. */
  lemma {:induction false} WalkOverLabels(msg: Octets, offset: nat, labels: seq<Part>, end: Walked)
    requires AllNonEmpty(labels)
    requires StandsAt(msg, offset, EncodeLabels(labels))
    requires Walk(msg, offset + |EncodeLabels(labels)|) == end
    ensures Walk(msg, offset) == Behind(labels, end)
    decreases |labels|
  {
    if labels == [] {
      BehindNothing(labels, end);
    } else {
      var first, rest := labels[0], labels[1..];
      assert first in labels && forall l | l in rest :: l in labels;
      var code := EncodeLabels(rest);
      StandsAtConcat(msg, offset, [|first|] + first, code);
      WalkOverLabels(msg, offset + 1 + |first|, rest, end);
      WalkOverLabel(msg, offset, first, code, rest, end);
      assert labels == [first] + rest;
    }
  }

  /** A plainly encoded name decodes to its labels, wherever it stands. */
  lemma PlainNameDecodes(msg: Octets, offset: nat, labels: seq<Part>, hops: nat)
    requires AllNonEmpty(labels)
    requires StandsAt(msg, offset, EncodeLabels(labels) + [0])
    ensures Halts(msg, offset, hops)
    ensures Labels(msg, offset, hops) == labels
    ensures DecodeWithin(msg, offset, hops) == (Join(labels, DOT), offset + |EncodeLabels(labels)| + 1)
  {
    var end := offset + |EncodeLabels(labels)|;
    StandsAtConcat(msg, offset, EncodeLabels(labels), [0]);
    assert msg[end] == msg[end..end + 1][0] == 0;
    WalkOverLabels(msg, offset, labels, Walked([], end + 1, None));
    assert labels + [] == labels;
    NameIsItsLabels(msg, offset, hops);
  }

  /** Labels followed by a pointer stand for those labels and then the labels pointed to. */
  lemma PointerNameDecodes(msg: Octets, offset: nat, prefix: seq<Part>, target: nat, hops: nat)
    requires AllNonEmpty(prefix)
    requires target < POINTERS && Halts(msg, target, hops)
    requires StandsAt(msg, offset, EncodeLabels(prefix) + PointerTo(target))
    ensures Halts(msg, offset, hops + 1)
    ensures Labels(msg, offset, hops + 1) == prefix + Labels(msg, target, hops)
    ensures DecodeWithin(msg, offset, hops + 1) ==
            (Join(prefix + Labels(msg, target, hops), DOT), offset + |EncodeLabels(prefix)| + 2)
  {
    var end := offset + |EncodeLabels(prefix)|;
    StandsAtConcat(msg, offset, EncodeLabels(prefix), PointerTo(target));
    PointerReads(msg, end, target);
    WalkOverLabels(msg, offset, prefix, Walked([], end + 2, Some(target)));
    assert prefix + [] == prefix;
    NameIsItsLabels(msg, offset, hops + 1);
  }

  /**
   * RFC 1035 section 4.1.4: replacing the tail of a name by a pointer to any encoding of that
   * tail, itself compressed or not, leaves the decoded name unchanged, and the returned offset is
   * the one just after the pointer.
   */
  lemma CompressionPreservesMeaning(plain: Octets, at: nat, packed: Octets, offset: nat,
                                    prefix: seq<Part>, tail: seq<Part>, target: nat, hops: nat)
    requires AllNonEmpty(prefix) && AllNonEmpty(tail) && target < POINTERS
    requires StandsAt(plain, at, EncodeLabels(prefix + tail) + [0])
    requires StandsAt(packed, offset, EncodeLabels(prefix) + PointerTo(target))
    requires Halts(packed, target, hops) && Labels(packed, target, hops) == tail
    ensures Halts(plain, at, hops + 1) && Halts(packed, offset, hops + 1)
    ensures DecodeWithin(packed, offset, hops + 1).0 == DecodeWithin(plain, at, hops + 1).0
    ensures DecodeWithin(packed, offset, hops + 1).1 == offset + |EncodeLabels(prefix)| + 2
  {
    PlainNameDecodes(plain, at, prefix + tail, hops + 1);
    PointerNameDecodes(packed, offset, prefix, target, hops);
  }

  /** The labels in front of the first empty one. */
  function UntilEmpty(labels: seq<Part>): (front: seq<Part>)
    ensures |front| <= |labels| && front == labels[..|front|]
    ensures AllNonEmpty(front)
    ensures |front| < |labels| ==> labels[|front|] == []
  {
    if labels == [] || labels[0] == [] then [] else [labels[0]] + UntilEmpty(labels[1..])
  }

  /** Decoding an encoded list of labels stops in front of its first empty label. */
  lemma EncodedLabelsDecode(msg: Octets, offset: nat, labels: seq<Part>, hops: nat)
    requires StandsAt(msg, offset, EncodeLabels(labels) + [0])
    ensures Halts(msg, offset, hops)
    ensures Labels(msg, offset, hops) == UntilEmpty(labels)
    ensures DecodeWithin(msg, offset, hops).0 == Join(UntilEmpty(labels), DOT)
    ensures DecodeWithin(msg, offset, hops).1 <= offset + |EncodeLabels(labels)| + 1
    ensures UntilEmpty(labels) == labels ==>
              DecodeWithin(msg, offset, hops).1 == offset + |EncodeLabels(labels)| + 1
  {
    var front := UntilEmpty(labels);
    if |front| == |labels| {
      assert front == labels;
    } else {
      assert labels == front + ([[]] + labels[|front| + 1..]);
      EncodedFrontStands(msg, offset, front, labels[|front| + 1..]);
    }
    PlainNameDecodes(msg, offset, front, hops);
  }

  /** An empty label encodes as the zero byte that ends a name. */
  lemma EncodedFrontStands(msg: Octets, offset: nat, front: seq<Part>, back: seq<Part>)
    requires StandsAt(msg, offset, EncodeLabels(front + ([[]] + back)) + [0])
    ensures StandsAt(msg, offset, EncodeLabels(front) + [0])
    ensures |EncodeLabels(front)| <= |EncodeLabels(front + ([[]] + back))|
  {
    var code := EncodeLabels(back) + [0];
    EncodeLabelsConcat(front, [[]] + back);
    assert ([[]] + back)[1..] == back;
    assert EncodeLabels([[]] + back) == [0] + EncodeLabels(back);
    assert EncodeLabels(front + ([[]] + back)) + [0] == (EncodeLabels(front) + [0]) + code;
    StandsAtConcat(msg, offset, EncodeLabels(front) + [0], code);
  }

  /** Both the first empty label and a cut label make the joined name shorter. */
  lemma {:induction false} JoinCutLonger(labels: seq<Octets>)
    ensures |Join(CutLabels(labels), DOT)| <= |Join(labels, DOT)|
    ensures |Join(CutLabels(labels), DOT)| == |Join(labels, DOT)| <==> forall l | l in labels :: |l| <= MAX_LABEL
    decreases |labels|
  {
    if |labels| == 1 {
      assert labels[0] in labels;
    } else if |labels| > 1 {
      JoinCutLonger(labels[1..]);
      assert CutLabels(labels)[1..] == CutLabels(labels[1..]);
      assert labels == [labels[0]] + labels[1..];
    }
  }

  lemma {:induction false} JoinFrontShorter(labels: seq<Part>)
    ensures |Join(UntilEmpty(labels), DOT)| <= |Join(labels, DOT)|
    ensures |Join(UntilEmpty(labels), DOT)| == |Join(labels, DOT)| <==> UntilEmpty(labels) == labels || labels == [[]]
    decreases |labels|
  {
    var front := UntilEmpty(labels);
    if |labels| > 1 && labels[0] != [] {
      JoinFrontShorter(labels[1..]);
      assert front[1..] == UntilEmpty(labels[1..]);
      assert labels == [labels[0]] + labels[1..];
      JoinCons(labels[0], front[1..], DOT);
    }
  }

  /**
   * Encoding and decoding a name, at any position of any message, gives back the canonical text
   * exactly when that text is empty or all its labels have 1 to 63 bytes. The decoder terminates
   * on every encoded name, round trip or not.
   */
  lemma EncodeDecodeRoundTrip(before: Octets, name: Octets, after: Octets, trim: Octets -> Octets, hops: nat)
    ensures Halts(before + EncodeName(name, trim) + after, |before|, hops)
    ensures var decoded := DecodeWithin(before + EncodeName(name, trim) + after, |before|, hops);
            var labels := Split(Canonical(name, trim), DOT);
            && (decoded.0 == Canonical(name, trim)
                <==> Canonical(name, trim) == [] || forall l | l in labels :: 1 <= |l| <= MAX_LABEL)
            && (decoded.0 == Canonical(name, trim) ==> decoded.1 == |before| + |EncodeName(name, trim)|)
            && decoded.1 <= |before| + |EncodeName(name, trim)|
  {
    var msg := before + EncodeName(name, trim) + after;
    var t := Canonical(name, trim);
    assert msg[|before|..|before| + |EncodeName(name, trim)|] == EncodeName(name, trim);
    if t == [] {
      assert EncodeLabels([]) + [0] == [0];
      PlainNameDecodes(msg, |before|, [], hops);
    } else {
      EncodedLabelsDecode(msg, |before|, CutLabels(Split(t, DOT)), hops);
      hide Halts, DecodeWithin, Canonical;
      TextOfCutLabels(t);
    }
  }

  /** Reading the cut labels of a text up to the first empty one gives the text, if nothing was lost. */
  lemma TextOfCutLabels(t: Octets)
    requires t != []
    ensures var labels := Split(t, DOT);
            var cut := CutLabels(labels);
            && (Join(UntilEmpty(cut), DOT) == t <==> forall l | l in labels :: 1 <= |l| <= MAX_LABEL)
            && (Join(UntilEmpty(cut), DOT) == t ==> UntilEmpty(cut) == cut)
  {
    var labels := Split(t, DOT);
    var cut := CutLabels(labels);
    JoinSplit(t, DOT);
    JoinCutLonger(labels);
    JoinFrontShorter(cut);
    if UntilEmpty(cut) == cut && forall l | l in labels :: |l| <= MAX_LABEL {
      assert cut == labels;
    }
    if forall l | l in labels :: 1 <= |l| <= MAX_LABEL {
      assert cut == labels;
    }
  }
}
