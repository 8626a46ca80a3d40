/**
 * 2024/day-08 part 1: antennas are sorted by frequency and cut into runs
 * of one frequency; every two antennas of a run produce two antinodes, one
 * beyond each antenna at the distance between them; those inside the map
 * are counted once each.
 */
module Antinodes {
  datatype Vec2 = Vec2(x: int, y: int)

  /** An antenna at a position with its frequency character. */
  datatype Antenna = Antenna(pos: Vec2, freq: char)

  function Add(a: Vec2, b: Vec2): Vec2
  {
    Vec2(a.x + b.x, a.y + b.y)
  }

  function Sub(a: Vec2, b: Vec2): Vec2
  {
    Vec2(a.x - b.x, a.y - b.y)
  }

  // ---------------------------------------------------------------------
  // The pipeline of `process`

  /** Inserts a before the first antenna whose frequency is not below its own. */
  function Insert(a: Antenna, s: seq<Antenna>): seq<Antenna>
  {
    if s == [] || a.freq <= s[0].freq then [a] + s else [s[0]] + Insert(a, s[1..])
  }

  /** The stable `sort_by` on frequency. */
  function SortByFreq(s: seq<Antenna>): seq<Antenna>
  {
    if s == [] then [] else Insert(s[0], SortByFreq(s[1..]))
  }

  /** The length of the leading run of antennas of frequency f. */
  function RunLen(s: seq<Antenna>, f: char): (r: nat)
    ensures r <= |s| && (forall i :: 0 <= i < r ==> s[i].freq == f) && (r < |s| ==> s[r].freq != f)
  {
    if s == [] || s[0].freq != f then 0 else 1 + RunLen(s[1..], f)
  }

  /** `chunk_by`: the maximal runs of one frequency, in order. */
  function ChunkBy(s: seq<Antenna>): seq<seq<Antenna>>
    decreases |s|
  {
    if s == [] then [] else var r := RunLen(s, s[0].freq); [s[..r]] + ChunkBy(s[r..])
  }

  /** `combinations(2)`: every pair of positions i < j, in lexicographic order. */
  function Combinations(c: seq<Antenna>): seq<(Antenna, Antenna)>
  {
    if c == [] then [] else seq(|c| - 1, k requires 0 <= k < |c| - 1 => (c[0], c[k + 1])) + Combinations(c[1..])
  }

  /** The two antinodes of each pair: `p + diff` and `q - diff` with `diff = p - q`. */
  function PairNodes(pairs: seq<(Antenna, Antenna)>): seq<Vec2>
  {
    if pairs == [] then []
    else
      var diff := Sub(pairs[0].0.pos, pairs[0].1.pos);
      [Add(pairs[0].0.pos, diff), Sub(pairs[0].1.pos, diff)] + PairNodes(pairs[1..])
  }

  predicate InBounds(p: Vec2, width: int, height: int)
  {
    0 <= p.x < width && 0 <= p.y < height
  }

  /** The `filter` on the ranges `0..width` and `0..height`. */
  function Keep(nodes: seq<Vec2>, width: int, height: int): seq<Vec2>
  {
    if nodes == [] then []
    else (if InBounds(nodes[0], width, height) then [nodes[0]] else []) + Keep(nodes[1..], width, height)
  }

  /** The outer `flat_map` over the chunks. */
  function AllNodes(chunks: seq<seq<Antenna>>, width: int, height: int): seq<Vec2>
  {
    if chunks == [] then []
    else Keep(PairNodes(Combinations(chunks[0])), width, height) + AllNodes(chunks[1..], width, height)
  }

  /** `process` after parsing: the number of distinct antinodes inside the map (`unique().count()`). */
  function Count(antennas: seq<Antenna>, width: int, height: int): nat
  {
    |set p | p in AllNodes(ChunkBy(SortByFreq(antennas)), width, height)|
  }

  // ---------------------------------------------------------------------
  // The reference definition

  /** a and b are two different antennas of the collection m (two copies when a == b). */
  predicate Pair(m: multiset<Antenna>, a: Antenna, b: Antenna)
  {
    if a == b then m[a] >= 2 else m[a] >= 1 && m[b] >= 1
  }

  /** The antinode of the pair on the side of a. */
  function Antinode(a: Antenna, b: Antenna): Vec2
  {
    Vec2(2 * a.pos.x - b.pos.x, 2 * a.pos.y - b.pos.y)
  }

  /** p lies beyond one of two antennas sharing a frequency, as far again as the other one. */
  ghost predicate IsAntinode(m: multiset<Antenna>, p: Vec2)
  {
    exists a, b :: Pair(m, a, b) && a.freq == b.freq && p == Antinode(a, b)
  }

  ghost function AntinodeSet(antennas: seq<Antenna>, width: int, height: int): set<Vec2>
  {
    set x: int, y: int | 0 <= x < width && 0 <= y < height && IsAntinode(multiset(antennas), Vec2(x, y)) :: Vec2(x, y)
  }

  // ---------------------------------------------------------------------
  // Properties

  /** The count is the number of points of the map that are antinodes of a same-frequency pair. */
  lemma CountIsAntinodes(antennas: seq<Antenna>, width: int, height: int)
    ensures Count(antennas, width, height) == |AntinodeSet(antennas, width, height)|
  {
    var s := SortByFreq(antennas);
    SortProps(antennas);
    var nodes := AllNodes(ChunkBy(s), width, height);
    forall p
      ensures p in nodes <==> p in AntinodeSet(antennas, width, height)
    {
      ChunksMembers(s, width, height, p);
      if InBounds(p, width, height) && IsAntinode(multiset(antennas), p) {
        assert p == Vec2(p.x, p.y);
      }
    }
    assert (set p | p in nodes) == AntinodeSet(antennas, width, height);
  }

  /** The order in which the antennas are listed does not matter. */
  lemma OrderIrrelevant(antennas: seq<Antenna>, other: seq<Antenna>, width: int, height: int)
    requires multiset(antennas) == multiset(other)
    ensures Count(antennas, width, height) == Count(other, width, height)
  {
    CountIsAntinodes(antennas, width, height);
    CountIsAntinodes(other, width, height);
    assert AntinodeSet(antennas, width, height) == AntinodeSet(other, width, height);
  }

  predicate SortedByFreq(s: seq<Antenna>)
  {
    forall i, j :: 0 <= i < j < |s| ==> s[i].freq <= s[j].freq
  }

  lemma {:induction false} InsertMembers(a: Antenna, s: seq<Antenna>)
    ensures |Insert(a, s)| == |s| + 1 && multiset(Insert(a, s)) == multiset(s) + multiset{a}
    ensures forall x :: x in Insert(a, s) <==> x == a || x in s
  {
    if s != [] && a.freq > s[0].freq {
      InsertMembers(a, s[1..]);
      assert s == [s[0]] + s[1..];
    }
  }

  lemma {:induction false} InsertProps(a: Antenna, s: seq<Antenna>)
    requires SortedByFreq(s)
    ensures SortedByFreq(Insert(a, s)) && multiset(Insert(a, s)) == multiset(s) + multiset{a}
  {
    InsertMembers(a, s);
    if s != [] && a.freq > s[0].freq {
      var rest := s[1..];
      assert SortedByFreq(rest) by {
        assert forall k :: 0 <= k < |rest| ==> rest[k] == s[k + 1];
      }
      InsertProps(a, rest);
      InsertMembers(a, rest);
      var t := Insert(a, rest);
      forall k | 0 <= k < |t|
        ensures s[0].freq <= t[k].freq
      {
        assert t[k] in t;
        if t[k] != a {
          var m :| 0 <= m < |rest| && rest[m] == t[k];
          assert s[m + 1] == t[k];
        }
      }
      var u := [s[0]] + t;
      assert forall k :: 1 <= k < |u| ==> u[k] == t[k - 1];
    }
  }

  /** The sort orders by frequency and keeps every antenna. */
  lemma {:induction false} SortProps(s: seq<Antenna>)
    ensures SortedByFreq(SortByFreq(s)) && multiset(SortByFreq(s)) == multiset(s)
  {
    if s != [] {
      SortProps(s[1..]);
      InsertProps(s[0], SortByFreq(s[1..]));
      assert s == [s[0]] + s[1..];
    }
  }

  /** `combinations(2)` lists exactly the pairs at positions i < j. */
  lemma {:induction false} CombinationsMembers(c: seq<Antenna>, a: Antenna, b: Antenna)
    ensures (a, b) in Combinations(c) <==> exists i, j :: 0 <= i < j < |c| && c[i] == a && c[j] == b
  {
    if c != [] {
      var first := seq(|c| - 1, k requires 0 <= k < |c| - 1 => (c[0], c[k + 1]));
      CombinationsMembers(c[1..], a, b);
      if (a, b) in first {
        var k :| 0 <= k < |first| && first[k] == (a, b);
        assert c[0] == a && c[k + 1] == b;
      } else if (a, b) in Combinations(c[1..]) {
        var i, j :| 0 <= i < j < |c[1..]| && c[1..][i] == a && c[1..][j] == b;
        assert c[i + 1] == a && c[j + 1] == b;
      }
      if i, j :| 0 <= i < j < |c| && c[i] == a && c[j] == b {
        if i == 0 {
          assert first[j - 1] == (a, b);
        } else {
          assert c[1..][i - 1] == a && c[1..][j - 1] == b;
        }
      }
    }
  }

  /** Each pair gives its two antinodes, one on the side of each antenna. */
  lemma {:induction false} PairNodesMembers(pairs: seq<(Antenna, Antenna)>, p: Vec2)
    ensures p in PairNodes(pairs) <==> exists q :: q in pairs && (p == Antinode(q.0, q.1) || p == Antinode(q.1, q.0))
  {
    if pairs != [] {
      PairNodesMembers(pairs[1..], p);
      var q := pairs[0];
      var diff := Sub(q.0.pos, q.1.pos);
      assert Add(q.0.pos, diff) == Antinode(q.0, q.1) && Sub(q.1.pos, diff) == Antinode(q.1, q.0);
      if q' :| q' in pairs && (p == Antinode(q'.0, q'.1) || p == Antinode(q'.1, q'.0)) {
        if q' != q {
          assert q' in pairs[1..];
        }
      }
    }
  }

  lemma {:induction false} KeepMembers(nodes: seq<Vec2>, width: int, height: int, p: Vec2)
    ensures p in Keep(nodes, width, height) <==> p in nodes && InBounds(p, width, height)
  {
    if nodes != [] {
      KeepMembers(nodes[1..], width, height, p);
      assert nodes == [nodes[0]] + nodes[1..];
    }
  }

  /** Two different positions of c hold a and b exactly when a and b are a pair of its multiset. */
  lemma PairIndices(c: seq<Antenna>, a: Antenna, b: Antenna)
    ensures Pair(multiset(c), a, b) <==> exists i, j :: 0 <= i < |c| && 0 <= j < |c| && i != j && c[i] == a && c[j] == b
  {
    if i, j :| 0 <= i < |c| && 0 <= j < |c| && i != j && c[i] == a && c[j] == b {
      IndicesPair(c, i, j);
    }
    if Pair(multiset(c), a, b) {
      var i, j := PairAt(c, a, b);
    }
  }

  lemma IndicesPair(c: seq<Antenna>, i: nat, j: nat)
    requires i < |c| && j < |c| && i != j
    ensures Pair(multiset(c), c[i], c[j])
  {
    if c[i] == c[j] {
      var lo, hi := if i < j then i else j, if i < j then j else i;
      assert c == c[..hi] + c[hi..];
      assert c[lo] in c[..hi] && c[hi] == c[hi..][0];
      assert multiset(c) == multiset(c[..hi]) + multiset(c[hi..]);
    } else {
      assert c[i] in c && c[j] in c;
    }
  }

  lemma PairAt(c: seq<Antenna>, a: Antenna, b: Antenna) returns (i: nat, j: nat)
    requires Pair(multiset(c), a, b)
    ensures i < |c| && j < |c| && i != j && c[i] == a && c[j] == b
  {
    assert a in multiset(c);
    i :| 0 <= i < |c| && c[i] == a;
    assert c == c[..i] + [c[i]] + c[i + 1..];
    assert multiset(c) == multiset(c[..i]) + multiset{a} + multiset(c[i + 1..]);
    if b in c[..i] {
      j :| 0 <= j < i && c[..i][j] == b;
    } else {
      assert b in c[i + 1..];
      var k :| 0 <= k < |c| - i - 1 && c[i + 1..][k] == b;
      j := i + 1 + k;
    }
  }

  /** Inside one run, the antinodes are those of the pairs of its antennas. */
  lemma ChunkMembers(c: seq<Antenna>, p: Vec2)
    ensures p in PairNodes(Combinations(c)) <==> exists a, b :: Pair(multiset(c), a, b) && p == Antinode(a, b)
  {
    PairNodesMembers(Combinations(c), p);
    if q :| q in Combinations(c) && (p == Antinode(q.0, q.1) || p == Antinode(q.1, q.0)) {
      CombinationsMembers(c, q.0, q.1);
      var i, j :| 0 <= i < j < |c| && c[i] == q.0 && c[j] == q.1;
      PairIndices(c, q.0, q.1);
      PairIndices(c, q.1, q.0);
    }
    if a, b :| Pair(multiset(c), a, b) && p == Antinode(a, b) {
      PairIndices(c, a, b);
      var i, j :| 0 <= i < |c| && 0 <= j < |c| && i != j && c[i] == a && c[j] == b;
      if i < j {
        CombinationsMembers(c, a, b);
        assert (a, b) in Combinations(c);
      } else {
        CombinationsMembers(c, b, a);
        assert (b, a) in Combinations(c);
      }
    }
  }

  /** Over a sorted list, the runs hold every same-frequency pair and no other. */
  lemma {:induction false} ChunksMembers(s: seq<Antenna>, width: int, height: int, p: Vec2)
    requires SortedByFreq(s)
    ensures p in AllNodes(ChunkBy(s), width, height) <==> InBounds(p, width, height) && IsAntinode(multiset(s), p)
    decreases |s|
  {
    if s != [] {
      var f := s[0].freq;
      var r := RunLen(s, f);
      var c, rest := s[..r], s[r..];
      RunSplit(s, r, f);
      ChunksMembers(rest, width, height, p);
      KeepMembers(PairNodes(Combinations(c)), width, height, p);
      ChunkMembers(c, p);
      AntinodeSplit(s, c, rest, f, p);
      assert AllNodes(ChunkBy(s), width, height) == Keep(PairNodes(Combinations(c)), width, height) + AllNodes(ChunkBy(rest), width, height);
    }
  }

  /** The antinodes of s are those of its run of frequency f and those of the rest. */
  lemma AntinodeSplit(s: seq<Antenna>, c: seq<Antenna>, rest: seq<Antenna>, f: char, p: Vec2)
    requires multiset(s) == multiset(c) + multiset(rest)
    requires forall a: Antenna :: a.freq == f ==> a !in rest
    requires forall a: Antenna :: a.freq != f ==> a !in c
    ensures IsAntinode(multiset(s), p) <==> (exists a, b :: Pair(multiset(c), a, b) && p == Antinode(a, b)) || IsAntinode(multiset(rest), p)
  {
    if IsAntinode(multiset(s), p) {
      var a, b :| Pair(multiset(s), a, b) && a.freq == b.freq && p == Antinode(a, b);
      if a.freq == f {
        assert a !in rest && b !in rest;
        assert Pair(multiset(c), a, b);
      } else {
        assert a !in c && b !in c;
        assert Pair(multiset(rest), a, b);
      }
    }
    if a, b :| Pair(multiset(c), a, b) && p == Antinode(a, b) {
      assert a in c && b in c;
      assert Pair(multiset(s), a, b) && a.freq == b.freq;
    }
    if IsAntinode(multiset(rest), p) {
      var a, b :| Pair(multiset(rest), a, b) && a.freq == b.freq && p == Antinode(a, b);
      assert Pair(multiset(s), a, b);
    }
  }

  /** The leading run holds every antenna of its frequency; the rest is sorted and holds none. */
  lemma RunSplit(s: seq<Antenna>, r: nat, f: char)
    requires SortedByFreq(s) && s != [] && s[0].freq == f && r <= |s| && (forall i :: 0 <= i < r ==> s[i].freq == f) && (r < |s| ==> s[r].freq != f)
    ensures multiset(s) == multiset(s[..r]) + multiset(s[r..])
    ensures SortedByFreq(s[r..])
    ensures forall a: Antenna :: a.freq == f ==> a !in s[r..]
    ensures forall a: Antenna :: a.freq != f ==> a !in s[..r]
  {
    assert s == s[..r] + s[r..];
    var rest := s[r..];
    forall k | 0 <= k < |rest|
      ensures rest[k].freq != f
    {
      assert rest[k] == s[r + k];
      assert s[0].freq <= s[r].freq <= s[r + k].freq;
    }
    forall i, j | 0 <= i < j < |rest|
      ensures rest[i].freq <= rest[j].freq
    {
      assert rest[i] == s[r + i] && rest[j] == s[r + j];
    }
  }
}
