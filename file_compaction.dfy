/**
 * day-09 part 2: the same disk map, compacted whole file at a time.  Files
 * are visited from the last entry of the map down to the first; each one
 * not yet moved goes into the leftmost free span before it that is long
 * enough, the leftover free space is inserted right after it as a new
 * span, and the file's old span becomes free.  The answer is the checksum
 * of the resulting layout, free blocks counting for nothing.
 */
module FileCompaction {
  import opened Wrappers
  import opened Decimal
  import BlockCompaction

  /** One span of the map: length, file id (None when free) and whether it was written by a move. */
  datatype Entry = Entry(count: nat, id: Option<nat>, moved: bool)

  /** The map: digit i is file i / 2 when i is even, free space when it is odd; nothing moved yet. */
  function Decode(input: string): seq<Entry>
    requires AllDigits(input)
  {
    seq(|input|, i requires 0 <= i < |input| => Entry(DigitValue(input[i]), if i % 2 != 0 then None else Some(i / 2), false))
  }

  /** Entry j is free and has room for entry i. */
  predicate Fits(files: seq<Entry>, i: nat, j: nat)
    requires i < |files| && j < |files|
  {
    files[j].id.None? && files[j].count >= files[i].count
  }

  /** The inner `for j in 0..i` search: the first j from `from` on below i where entry i fits. */
  function FirstFit(files: seq<Entry>, i: nat, from: nat): Option<nat>
    requires i < |files| && from <= i
    decreases i - from
  {
    if from == i then None
    else if Fits(files, i, from) then Some(from)
    else FirstFit(files, i, from + 1)
  }

  /** `Vec::insert`: x placed at index k, the entries from k on shifted one place right. */
  function Insert<T>(s: seq<T>, k: nat, x: T): (r: seq<T>)
    requires k <= |s|
    ensures |r| == |s| + 1 && r[k] == x
    ensures forall m :: 0 <= m < k ==> r[m] == s[m]
    ensures forall m :: k < m < |r| ==> r[m] == s[m - 1]
  {
    s[..k] + [x] + s[k..]
  }

  /**
   * Entry i moved into free entry j: `take` frees entry i, entry j gets the
   * file and the moved flag, and any leftover free space follows it.
   */
  function Relocate(files: seq<Entry>, i: nat, j: nat): seq<Entry>
    requires j < i < |files| && Fits(files, i, j)
  {
    var diff := files[j].count - files[i].count;
    var placed := files[i := Entry(files[i].count, None, files[i].moved)][j := Entry(files[i].count, files[i].id, true)];
    if diff > 0 then Insert(placed, j + 1, Entry(diff, None, true)) else placed
  }

  /** One turn of the outer loop, at index i. */
  function MoveFile(files: seq<Entry>, i: nat): (r: seq<Entry>)
    requires i < |files|
    ensures |files| <= |r| <= |files| + 1
  {
    if files[i].id.None? || files[i].moved then files
    else match FirstFit(files, i, 0)
      case None => files
      case Some(j) =>
        FirstFitFound(files, i, 0);
        Relocate(files, i, j)
  }

  /** The outer loop's turns at indices k - 1 down to 0. */
  function Pass(files: seq<Entry>, k: nat): seq<Entry>
    requires k <= |files|
    decreases k
  {
    if k == 0 then files else Pass(MoveFile(files, k - 1), k - 1)
  }

  /** `fixed`: every entry expanded into its blocks. */
  function Expand(files: seq<Entry>): seq<Option<nat>>
  {
    if files == [] then [] else BlockCompaction.Repeat(files[0].id, files[0].count) + Expand(files[1..])
  }

  /** The checksum: position times id over the blocks, free blocks adding nothing. */
  function Checksum(blocks: seq<Option<nat>>): nat
  {
    if blocks == [] then 0
    else Checksum(blocks[..|blocks| - 1]) + (match blocks[|blocks| - 1] case Some(d) => (|blocks| - 1) * d case None => 0)
  }

  function TotalSize(files: seq<Entry>): nat
  {
    if files == [] then 0 else files[0].count + TotalSize(files[1..])
  }

  /** The number of entries holding file d. */
  function IdCount(files: seq<Entry>, d: nat): nat
  {
    if files == [] then 0 else (if files[0].id == Some(d) then 1 else 0) + IdCount(files[1..], d)
  }

  /** The nested loops of `process`, over a vector the loop body overwrites and grows. */
  method Compact(entries: seq<Entry>) returns (files: seq<Entry>)
    ensures files == Pass(entries, |entries|)
  {
    files := entries;
    var i: nat := |entries|;
    while i > 0
      invariant i <= |entries| <= |files|
      invariant Pass(files, i) == Pass(entries, |entries|)
    {
      i := i - 1;
      files := MoveAt(files, i);
    }
  }

  /** One turn of the outer loop: skip a free or moved entry, else search `0..i` and move on the first fit. */
  method MoveAt(before: seq<Entry>, i: nat) returns (files: seq<Entry>)
    requires i < |before|
    ensures files == MoveFile(before, i)
  {
    files := before;
    if files[i].id.None? || files[i].moved {
      return;
    }
    var j := 0;
    while j < i
      invariant j <= i && files == before
      invariant FirstFit(before, i, 0) == FirstFit(before, i, j)
    {
      if files[j].id.Some? || files[j].count < files[i].count {
        j := j + 1;
        continue;
      }
      var diff := files[j].count - files[i].count;
      var taken := files[i].id;
      files := files[i := Entry(files[i].count, None, files[i].moved)];
      files := files[j := Entry(files[i].count, taken, true)];
      if diff > 0 {
        files := Insert(files, j + 1, Entry(diff, None, true));
      }
      return;
    }
  }

  /** `process`: decode, compact, expand, checksum. */
  method Process(input: string) returns (result: nat)
    requires AllDigits(input)
    ensures result == Checksum(Expand(Pass(Decode(input), |input|)))
  {
    var files := Compact(Decode(input));
    result := Checksum(Expand(files));
  }

  // ---------------------------------------------------------------------
  // Properties

  /** `FirstFit` finds the leftmost entry from `from` on below i with room for entry i, or says there is none. */
  lemma {:induction false} FirstFitFound(files: seq<Entry>, i: nat, from: nat)
    requires i < |files| && from <= i
    ensures FirstFit(files, i, from).Some? ==>
      var j := FirstFit(files, i, from).value;
      from <= j < i && Fits(files, i, j) && forall k :: from <= k < j ==> !Fits(files, i, k)
    ensures FirstFit(files, i, from).None? <==> forall k :: from <= k < i ==> !Fits(files, i, k)
    decreases i - from
  {
    if from < i && !Fits(files, i, from) {
      FirstFitFound(files, i, from + 1);
    }
  }

  /** A move keeps the total length of the disk: the leftover of the target span is reinserted, the old span freed. */
  lemma MoveKeepsSize(files: seq<Entry>, i: nat)
    requires i < |files|
    ensures TotalSize(MoveFile(files, i)) == TotalSize(files)
  {
    if files[i].id.Some? && !files[i].moved && FirstFit(files, i, 0).Some? {
      FirstFitFound(files, i, 0);
      RelocateKeepsSize(files, i, FirstFit(files, i, 0).value);
    }
  }

  lemma RelocateKeepsSize(files: seq<Entry>, i: nat, j: nat)
    requires j < i < |files| && Fits(files, i, j)
    ensures TotalSize(Relocate(files, i, j)) == TotalSize(files)
  {
    var freed := files[i := Entry(files[i].count, None, files[i].moved)];
    var placed := freed[j := Entry(files[i].count, files[i].id, true)];
    TotalSizeUpdate(files, i, Entry(files[i].count, None, files[i].moved));
    TotalSizeUpdate(freed, j, Entry(files[i].count, files[i].id, true));
    var diff := files[j].count - files[i].count;
    if diff > 0 {
      TotalSizeInsert(placed, j + 1, Entry(diff, None, true));
    }
  }

  lemma {:induction false} TotalSizeConcat(a: seq<Entry>, b: seq<Entry>)
    ensures TotalSize(a + b) == TotalSize(a) + TotalSize(b)
  {
    if a != [] {
      assert (a + b)[1..] == a[1..] + b;
      TotalSizeConcat(a[1..], b);
    } else {
      assert a + b == b;
    }
  }

  lemma TotalSizeUpdate(files: seq<Entry>, k: nat, e: Entry)
    requires k < |files|
    ensures TotalSize(files[k := e]) == TotalSize(files) - files[k].count + e.count
  {
    assert files == files[..k] + [files[k]] + files[k + 1..];
    assert files[k := e] == files[..k] + [e] + files[k + 1..];
    TotalSizeConcat(files[..k] + [files[k]], files[k + 1..]);
    TotalSizeConcat(files[..k], [files[k]]);
    TotalSizeConcat(files[..k] + [e], files[k + 1..]);
    TotalSizeConcat(files[..k], [e]);
  }

  lemma TotalSizeInsert(files: seq<Entry>, k: nat, e: Entry)
    requires k <= |files|
    ensures TotalSize(Insert(files, k, e)) == TotalSize(files) + e.count
  {
    assert files == files[..k] + files[k..];
    TotalSizeConcat(files[..k], files[k..]);
    TotalSizeConcat(files[..k] + [e], files[k..]);
    TotalSizeConcat(files[..k], [e]);
  }

  /** A move only carries a file's id from one entry to another: every id is held by as many entries as before. */
  lemma MoveKeepsIds(files: seq<Entry>, i: nat, d: nat)
    requires i < |files|
    ensures IdCount(MoveFile(files, i), d) == IdCount(files, d)
  {
    if files[i].id.Some? && !files[i].moved && FirstFit(files, i, 0).Some? {
      FirstFitFound(files, i, 0);
      RelocateKeepsIds(files, i, FirstFit(files, i, 0).value, d);
    }
  }

  lemma RelocateKeepsIds(files: seq<Entry>, i: nat, j: nat, d: nat)
    requires j < i < |files| && Fits(files, i, j)
    ensures IdCount(Relocate(files, i, j), d) == IdCount(files, d)
  {
    var freed := files[i := Entry(files[i].count, None, files[i].moved)];
    var placed := freed[j := Entry(files[i].count, files[i].id, true)];
    IdCountUpdate(files, i, Entry(files[i].count, None, files[i].moved), d);
    IdCountUpdate(freed, j, Entry(files[i].count, files[i].id, true), d);
    var diff := files[j].count - files[i].count;
    if diff > 0 {
      IdCountInsert(placed, j + 1, Entry(diff, None, true), d);
    }
  }

  lemma {:induction false} IdCountConcat(a: seq<Entry>, b: seq<Entry>, d: nat)
    ensures IdCount(a + b, d) == IdCount(a, d) + IdCount(b, d)
  {
    if a != [] {
      assert (a + b)[1..] == a[1..] + b;
      IdCountConcat(a[1..], b, d);
    } else {
      assert a + b == b;
    }
  }

  lemma IdCountUpdate(files: seq<Entry>, k: nat, e: Entry, d: nat)
    requires k < |files|
    ensures IdCount(files[k := e], d) == IdCount(files, d) - (if files[k].id == Some(d) then 1 else 0) + (if e.id == Some(d) then 1 else 0)
  {
    assert files == files[..k] + [files[k]] + files[k + 1..];
    assert files[k := e] == files[..k] + [e] + files[k + 1..];
    IdCountConcat(files[..k] + [files[k]], files[k + 1..], d);
    IdCountConcat(files[..k], [files[k]], d);
    IdCountConcat(files[..k] + [e], files[k + 1..], d);
    IdCountConcat(files[..k], [e], d);
  }

  lemma IdCountInsert(files: seq<Entry>, k: nat, e: Entry, d: nat)
    requires k <= |files|
    ensures IdCount(Insert(files, k, e), d) == IdCount(files, d) + (if e.id == Some(d) then 1 else 0)
  {
    assert files == files[..k] + files[k..];
    IdCountConcat(files[..k], files[k..], d);
    IdCountConcat(files[..k] + [e], files[k..], d);
    IdCountConcat(files[..k], [e], d);
  }

  /** The whole pass keeps the total length of the disk. */
  lemma {:induction false} PassKeepsSize(files: seq<Entry>, k: nat)
    requires k <= |files|
    ensures TotalSize(Pass(files, k)) == TotalSize(files)
    decreases k
  {
    if k > 0 {
      MoveKeepsSize(files, k - 1);
      PassKeepsSize(MoveFile(files, k - 1), k - 1);
    }
  }

  /** The whole pass keeps the number of entries holding each id. */
  lemma {:induction false} PassKeepsIds(files: seq<Entry>, k: nat, d: nat)
    requires k <= |files|
    ensures IdCount(Pass(files, k), d) == IdCount(files, d)
    decreases k
  {
    if k > 0 {
      var next := MoveFile(files, k - 1);
      assert Pass(files, k) == Pass(next, k - 1);
      MoveKeepsIds(files, k - 1, d);
      PassKeepsIds(next, k - 1, d);
    }
  }

  /** A moved or free entry is never touched by its own turn. */
  lemma SkipsMovedAndFree(files: seq<Entry>, i: nat)
    requires i < |files| && (files[i].id.None? || files[i].moved)
    ensures MoveFile(files, i) == files
  {
  }

  /** A file that moves lands, flagged as moved, in the leftmost free span before it with room; its old span is freed. */
  lemma MoveTarget(files: seq<Entry>, i: nat)
    requires i < |files| && files[i].id.Some? && !files[i].moved
    ensures FirstFit(files, i, 0).None? ==> MoveFile(files, i) == files && forall k :: 0 <= k < i ==> !Fits(files, i, k)
    ensures FirstFit(files, i, 0).Some? ==>
      var j := FirstFit(files, i, 0).value;
      var r := MoveFile(files, i);
      j < i && Fits(files, i, j) && (forall k :: 0 <= k < j ==> !Fits(files, i, k))
      && r[j] == Entry(files[i].count, files[i].id, true)
      && r[|r| - |files| + i] == Entry(files[i].count, None, false)
      && r[..j] == files[..j]
  {
    FirstFitFound(files, i, 0);
  }

  /** Entries numbered from `start` on, as `Decode` numbers them. */
  ghost predicate DecodedFrom(files: seq<Entry>, start: nat)
  {
    forall k :: 0 <= k < |files| ==> files[k].id == if (start + k) % 2 != 0 then None else Some((start + k) / 2)
  }

  /** In a decoded map file d is held by entry 2d alone, and by none past the end. */
  lemma {:induction false} DecodedIds(files: seq<Entry>, start: nat, d: nat)
    requires DecodedFrom(files, start)
    ensures IdCount(files, d) == if start <= 2 * d < start + |files| then 1 else 0
  {
    if files != [] {
      assert DecodedFrom(files[1..], start + 1) by {
        forall k | 0 <= k < |files| - 1
          ensures files[1..][k].id == if (start + 1 + k) % 2 != 0 then None else Some((start + 1 + k) / 2)
        {
          assert files[1..][k] == files[k + 1];
        }
      }
      DecodedIds(files[1..], start + 1, d);
    }
  }

  /** After the pass every file of the map is in exactly one entry, and no other id appears. */
  lemma OneEntryPerFile(input: string, d: nat)
    requires AllDigits(input)
    ensures IdCount(Pass(Decode(input), |input|), d) == if 2 * d < |input| then 1 else 0
  {
    PassKeepsIds(Decode(input), |input|, d);
    assert DecodedFrom(Decode(input), 0);
    DecodedIds(Decode(input), 0, d);
  }

  /** The compacted layout has as many blocks as the disk. */
  lemma LayoutKeepsLength(input: string)
    requires AllDigits(input)
    ensures |Expand(Pass(Decode(input), |input|))| == |Expand(Decode(input))|
  {
    PassKeepsSize(Decode(input), |input|);
    ExpandLength(Pass(Decode(input), |input|));
    ExpandLength(Decode(input));
  }

  lemma {:induction false} ExpandLength(files: seq<Entry>)
    ensures |Expand(files)| == TotalSize(files)
  {
    if files != [] {
      ExpandLength(files[1..]);
    }
  }

  /** Over a layout with no free block this is part 1's checksum of the ids. */
  lemma {:induction false} ChecksumOfFiles(fixed: seq<nat>)
    ensures Checksum(seq(|fixed|, k requires 0 <= k < |fixed| => Some(fixed[k]))) == BlockCompaction.Checksum(fixed)
  {
    if fixed != [] {
      var n := |fixed|;
      ChecksumOfFiles(fixed[..n - 1]);
      assert seq(n, k requires 0 <= k < n => Some(fixed[k]))[..n - 1] == seq(n - 1, k requires 0 <= k < n - 1 => Some(fixed[..n - 1][k]));
    }
  }
}
