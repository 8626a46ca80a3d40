/**
 * 2024/day-09 part 1: a dense disk map alternates file lengths and free
 * lengths.  The file blocks are queued in id order; then the disk is filled
 * again slot by slot, a file slot taking the next block from the front of
 * the queue and a free slot taking the last block from its back, until the
 * queue runs dry.  The answer is the checksum of the filled blocks.
 */
module BlockCompaction {
  import opened Wrappers
  import opened Decimal

  /** One digit of the disk map: `count` blocks of file `id`, or free blocks when `id` is None. */
  datatype Span = Span(count: nat, id: Option<nat>)

  /** The disk map: the digit at index i is file i / 2 when i is even, free space when i is odd. */
  function Decode(input: string): seq<Span>
    requires AllDigits(input)
  {
    seq(|input|, i requires 0 <= i < |input| => Span(DigitValue(input[i]), if i % 2 != 0 then None else Some(i / 2)))
  }

  /** Spans numbered from `start` on, as `Decode` numbers them. */
  ghost predicate DecodedFrom(spans: seq<Span>, start: nat)
  {
    forall k :: 0 <= k < |spans| ==> spans[k].id == if (start + k) % 2 != 0 then None else Some((start + k) / 2)
  }

  lemma DecodeNumbers(input: string)
    requires AllDigits(input)
    ensures DecodedFrom(Decode(input), 0)
  {
  }

  function Repeat<T>(x: T, n: nat): (r: seq<T>)
    ensures |r| == n && forall k :: 0 <= k < n ==> r[k] == x
  {
    seq(n, _ => x)
  }

  /** The queue: each file's id repeated once per block, file after file. */
  function Blocks(spans: seq<Span>): seq<nat>
  {
    if spans == [] then []
    else (if spans[0].id.Some? then Repeat(spans[0].id.value, spans[0].count) else []) + Blocks(spans[1..])
  }

  /** The slots of the disk, true for a block that belongs to a file span. */
  function Slots(spans: seq<Span>): seq<bool>
  {
    if spans == [] then [] else Repeat(spans[0].id.Some?, spans[0].count) + Slots(spans[1..])
  }

  /** The blocks of the disk. */
  function TotalSize(spans: seq<Span>): nat
  {
    if spans == [] then 0 else spans[0].count + TotalSize(spans[1..])
  }

  /** The blocks of the disk that belong to files. */
  function FileSize(spans: seq<Span>): nat
  {
    if spans == [] then 0 else (if spans[0].id.Some? then spans[0].count else 0) + FileSize(spans[1..])
  }

  /** The blocks that belong to file d. */
  function IdSize(spans: seq<Span>, d: nat): nat
  {
    if spans == [] then 0 else (if spans[0].id == Some(d) then spans[0].count else 0) + IdSize(spans[1..], d)
  }

  /**
   * The compacted blocks, slot by slot: a file slot takes the front of the
   * queue, a free slot its back, and filling stops once the queue is empty.
   */
  function Fill(slots: seq<bool>, queue: seq<nat>): seq<nat>
  {
    if slots == [] || queue == [] then []
    else if slots[0] then [queue[0]] + Fill(slots[1..], queue[1..])
    else [queue[|queue| - 1]] + Fill(slots[1..], queue[..|queue| - 1])
  }

  /** `sum` of i * fixed[i] over the compacted blocks. */
  function Checksum(fixed: seq<nat>): nat
  {
    if fixed == [] then 0 else Checksum(fixed[..|fixed| - 1]) + (|fixed| - 1) * fixed[|fixed| - 1]
  }

  function Sum(s: seq<nat>): nat
  {
    if s == [] then 0 else Sum(s[..|s| - 1]) + s[|s| - 1]
  }

  /** The nested loops of `process`: one pass over the spans, popping the queue once per block. */
  method Compact(spans: seq<Span>) returns (fixed: seq<nat>)
    ensures fixed == Fill(Slots(spans), Blocks(spans))
  {
    var queue := Blocks(spans);
    fixed := [];
    for n := 0 to |spans|
      invariant fixed + Fill(Slots(spans[n..]), queue) == Fill(Slots(spans), Blocks(spans))
    {
      var span := spans[n];
      assert spans[n..][1..] == spans[n + 1..];
      ghost var rest := Slots(spans[n + 1..]);
      var t := 0;
      while t < span.count
        invariant t <= span.count
        invariant fixed + Fill(Repeat(span.id.Some?, span.count - t) + rest, queue) == Fill(Slots(spans), Blocks(spans))
      {
        FillStep(span.id.Some?, span.count - t, rest, queue);
        var d: Option<nat>;
        if span.id.Some? {
          if queue == [] {
            d := None;
          } else {
            d := Some(queue[0]);
            queue := queue[1..];
          }
        } else {
          if queue == [] {
            d := None;
          } else {
            d := Some(queue[|queue| - 1]);
            queue := queue[..|queue| - 1];
          }
        }
        if d.None? {
          break;
        }
        fixed := fixed + [d.value];
        t := t + 1;
      }
      assert Repeat(span.id.Some?, 0) + rest == rest;
    }
    assert spans[|spans|..] == [];
  }

  /** `process`: decode, compact, checksum. */
  method Process(input: string) returns (result: nat)
    requires AllDigits(input)
    ensures result == Checksum(Fill(Slots(Decode(input)), Blocks(Decode(input))))
  {
    var fixed := Compact(Decode(input));
    result := Checksum(fixed);
  }

  // ---------------------------------------------------------------------
  // Properties

  /** One slot of a run of n >= 1, then the rest of the run. */
  lemma FillStep(b: bool, n: nat, rest: seq<bool>, queue: seq<nat>)
    ensures n > 0 && queue != [] && b ==> Fill(Repeat(b, n) + rest, queue) == [queue[0]] + Fill(Repeat(b, n - 1) + rest, queue[1..])
    ensures n > 0 && queue != [] && !b ==> Fill(Repeat(b, n) + rest, queue) == [queue[|queue| - 1]] + Fill(Repeat(b, n - 1) + rest, queue[..|queue| - 1])
    ensures Fill(Repeat(b, n) + rest, []) == []
  {
    if n > 0 {
      assert (Repeat(b, n) + rest)[1..] == Repeat(b, n - 1) + rest;
    }
  }

  /** Filling yields one block per slot while blocks remain. */
  lemma {:induction false} FillLength(slots: seq<bool>, queue: seq<nat>)
    ensures |Fill(slots, queue)| == if |slots| < |queue| then |slots| else |queue|
  {
    if slots != [] && queue != [] {
      if slots[0] {
        FillLength(slots[1..], queue[1..]);
      } else {
        FillLength(slots[1..], queue[..|queue| - 1]);
      }
    }
  }

  /** With at least as many slots as blocks, filling rearranges the queue: each block lands exactly once. */
  lemma {:induction false} FillRearranges(slots: seq<bool>, queue: seq<nat>)
    requires |slots| >= |queue|
    ensures multiset(Fill(slots, queue)) == multiset(queue)
  {
    if slots != [] && queue != [] {
      if slots[0] {
        FillRearranges(slots[1..], queue[1..]);
        assert queue == [queue[0]] + queue[1..];
      } else {
        FillRearranges(slots[1..], queue[..|queue| - 1]);
        assert queue == queue[..|queue| - 1] + [queue[|queue| - 1]];
      }
    }
  }

  /** While only file slots have been met, the blocks come off the queue front in order. */
  lemma {:induction false} FillFront(slots: seq<bool>, queue: seq<nat>, k: nat)
    requires k <= |slots| && k <= |queue|
    requires forall i :: 0 <= i < k ==> slots[i]
    ensures |Fill(slots, queue)| >= k && Fill(slots, queue)[..k] == queue[..k]
  {
    FillLength(slots, queue);
    if k > 0 {
      FillFront(slots[1..], queue[1..], k - 1);
    }
  }

  lemma {:induction false} BlocksLength(spans: seq<Span>)
    ensures |Blocks(spans)| == FileSize(spans)
  {
    if spans != [] {
      BlocksLength(spans[1..]);
    }
  }

  lemma {:induction false} SlotsLength(spans: seq<Span>)
    ensures |Slots(spans)| == TotalSize(spans)
  {
    if spans != [] {
      SlotsLength(spans[1..]);
    }
  }

  lemma {:induction false} FilesFit(spans: seq<Span>)
    ensures FileSize(spans) <= TotalSize(spans)
  {
    if spans != [] {
      FilesFit(spans[1..]);
    }
  }

  /** The queue holds file d exactly as many times as the map gives it blocks. */
  lemma {:induction false} BlocksMultiplicity(spans: seq<Span>, d: nat)
    ensures multiset(Blocks(spans))[d] == IdSize(spans, d)
  {
    if spans != [] {
      BlocksMultiplicity(spans[1..], d);
      var head := if spans[0].id.Some? then Repeat(spans[0].id.value, spans[0].count) else [];
      assert multiset(Blocks(spans)) == multiset(head) + multiset(Blocks(spans[1..]));
      if spans[0].id.Some? {
        RepeatMultiplicity(spans[0].id.value, spans[0].count, d);
      }
    }
  }

  lemma {:induction false} RepeatMultiplicity(x: nat, n: nat, d: nat)
    ensures multiset(Repeat<nat>(x, n))[d] == if x == d then n else 0
  {
    if n > 0 {
      RepeatMultiplicity(x, n - 1, d);
      assert Repeat<nat>(x, n) == Repeat<nat>(x, n - 1) + [x];
    } else {
      assert Repeat<nat>(x, n) == [];
    }
  }

  /** In a decoded map file d is the digit at index 2d, and no digit past the end. */
  lemma {:induction false} DecodedIdSize(spans: seq<Span>, start: nat, d: nat)
    requires DecodedFrom(spans, start)
    ensures IdSize(spans, d) == if start <= 2 * d < start + |spans| then spans[2 * d - start].count else 0
  {
    if spans != [] {
      assert DecodedFrom(spans[1..], start + 1) by {
        forall k | 0 <= k < |spans| - 1
          ensures spans[1..][k].id == if (start + 1 + k) % 2 != 0 then None else Some((start + 1 + k) / 2)
        {
          assert spans[1..][k] == spans[k + 1];
        }
      }
      DecodedIdSize(spans[1..], start + 1, d);
    }
  }

  ghost predicate Sorted(s: seq<nat>)
  {
    forall a, b :: 0 <= a < b < |s| ==> s[a] <= s[b]
  }

  /** The queue of a decoded map is in id order, starting at the first id the spans hold. */
  lemma {:induction false} BlocksInOrder(spans: seq<Span>, start: nat)
    requires DecodedFrom(spans, start)
    ensures Sorted(Blocks(spans))
    ensures forall k :: 0 <= k < |Blocks(spans)| ==> Blocks(spans)[k] >= start / 2
  {
    if spans != [] {
      assert DecodedFrom(spans[1..], start + 1) by {
        forall k | 0 <= k < |spans| - 1
          ensures spans[1..][k].id == if (start + 1 + k) % 2 != 0 then None else Some((start + 1 + k) / 2)
        {
          assert spans[1..][k] == spans[k + 1];
        }
      }
      BlocksInOrder(spans[1..], start + 1);
      var head := if spans[0].id.Some? then Repeat(spans[0].id.value, spans[0].count) else [];
      var tail := Blocks(spans[1..]);
      assert Blocks(spans) == head + tail;
      assert forall k :: 0 <= k < |head| ==> head[k] == start / 2;
      assert forall k :: 0 <= k < |tail| ==> tail[k] >= start / 2;
    }
  }

  /** Compacting a decoded map keeps every file block exactly once, and fills from the left with no gap. */
  lemma CompactRearranges(input: string)
    requires AllDigits(input)
    ensures multiset(Fill(Slots(Decode(input)), Blocks(Decode(input)))) == multiset(Blocks(Decode(input)))
    ensures |Fill(Slots(Decode(input)), Blocks(Decode(input)))| == FileSize(Decode(input))
  {
    var spans := Decode(input);
    BlocksLength(spans);
    SlotsLength(spans);
    FilesFit(spans);
    FillRearranges(Slots(spans), Blocks(spans));
    FillLength(Slots(spans), Blocks(spans));
  }

  /** The queue of a decoded map: in id order, file d repeated as often as digit 2d says. */
  lemma QueueOfDecode(input: string, d: nat)
    requires AllDigits(input)
    ensures Sorted(Blocks(Decode(input)))
    ensures multiset(Blocks(Decode(input)))[d] == if 2 * d < |input| then DigitValue(input[2 * d]) else 0
  {
    DecodeNumbers(input);
    BlocksInOrder(Decode(input), 0);
    BlocksMultiplicity(Decode(input), d);
    DecodedIdSize(Decode(input), 0, d);
  }

  lemma ChecksumStep(ca: nat, cb: nat, na: nat, m: nat, v: nat, sb: nat)
    ensures ca + cb + na * sb + (na + m) * v == ca + (cb + m * v) + na * (sb + v)
  {
  }

  /** Appending blocks adds their own checksum, shifted by the position they start at. */
  lemma {:induction false} ChecksumConcat(a: seq<nat>, b: seq<nat>)
    ensures Checksum(a + b) == Checksum(a) + Checksum(b) + |a| * Sum(b)
  {
    if b != [] {
      var b', m, v := b[..|b| - 1], |b| - 1, b[|b| - 1];
      ChecksumConcat(a, b');
      assert (a + b)[..|a + b| - 1] == a + b';
      assert (a + b)[|a + b| - 1] == v;
      ChecksumStep(Checksum(a), Checksum(b'), |a|, m, v, Sum(b'));
    } else {
      assert a + b == a;
    }
  }
}
