/**
 Reading order for the text pipeline. Recognised characters are grouped into lines by a
 per-character line key. Lines are taken in ascending key order; within a line characters
 are sorted by their left edge (a stable sort), and every second line is reversed, so the
 pen sweeps back and forth (boustrophedon order).
 */
module TextOrder {

  /** A recognised character and its bounding box in image pixels: left, top, width, height. */
  datatype Glyph = Glyph(ch: char, x: int, y: int, w: int, h: int)

  // ---------------------------------------------------------------------------
  // The line keys, ascending and distinct
  // ---------------------------------------------------------------------------

  predicate StrictlyAscending(ks: seq<int>)
  {
    forall i, j :: 0 <= i < j < |ks| ==> ks[i] < ks[j]
  }

  /** Adds key k to an ascending list of distinct keys, unless it is already there. */
  function InsertKey(k: int, ks: seq<int>): seq<int>
    decreases |ks|
  {
    if ks == [] then [k]
    else if k < ks[0] then [k] + ks
    else if k == ks[0] then ks
    else [ks[0]] + InsertKey(k, ks[1..])
  }

  lemma {:induction false} InsertKeyKeepsOrder(k: int, ks: seq<int>)
    requires StrictlyAscending(ks)
    ensures StrictlyAscending(InsertKey(k, ks))
    ensures forall j :: j in InsertKey(k, ks) <==> j == k || j in ks
    decreases |ks|
  {
    if ks == [] {
      assert InsertKey(k, ks) == [k];
    } else if k < ks[0] {
      assert InsertKey(k, ks) == [k] + ks;
      ConsAscending(k, ks);
    } else if k > ks[0] {
      var rest := InsertKey(k, ks[1..]);
      assert InsertKey(k, ks) == [ks[0]] + rest;
      assert StrictlyAscending(ks[1..]);
      InsertKeyKeepsOrder(k, ks[1..]);
      assert forall j :: j in ks <==> j == ks[0] || j in ks[1..] by {
        assert ks == [ks[0]] + ks[1..];
      }
      forall i | 0 <= i < |rest| ensures ks[0] < rest[i] {
        assert rest[i] in rest;
        if rest[i] != k {
          var m :| 0 <= m < |ks[1..]| && ks[1..][m] == rest[i];
          assert ks[m + 1] == rest[i];
        }
      }
      ConsAscending(ks[0], rest);
    }
  }

  /** A key below every key of an ascending list can go in front of it. */
  lemma ConsAscending(a: int, s: seq<int>)
    requires StrictlyAscending(s) && (forall i :: 0 <= i < |s| ==> a < s[i])
    ensures StrictlyAscending([a] + s)
  {
    var r := [a] + s;
    forall i, j | 0 <= i < j < |r| ensures r[i] < r[j] {
      assert r[j] == s[j - 1];
      if i > 0 {
        assert r[i] == s[i - 1];
      }
    }
  }

  /** The dictionary keys of the grouping, in `sorted()` order. */
  function LineKeys(chars: seq<Glyph>, key: Glyph -> int): seq<int>
    decreases |chars|
  {
    if chars == [] then [] else InsertKey(key(chars[0]), LineKeys(chars[1..], key))
  }

  /** Some character has key k. */
  predicate HasKey(chars: seq<Glyph>, key: Glyph -> int, k: int)
  {
    exists c :: c in chars && key(c) == k
  }

  /** The line keys ascend strictly and are exactly the keys some character has. */
  lemma {:induction false} LineKeysAreSortedKeys(chars: seq<Glyph>, key: Glyph -> int)
    ensures StrictlyAscending(LineKeys(chars, key))
    ensures forall k :: k in LineKeys(chars, key) <==> HasKey(chars, key, k)
    decreases |chars|
  {
    if chars != [] {
      LineKeysAreSortedKeys(chars[1..], key);
      InsertKeyKeepsOrder(key(chars[0]), LineKeys(chars[1..], key));
      forall k ensures HasKey(chars, key, k) <==> k == key(chars[0]) || HasKey(chars[1..], key, k)
      {
        if HasKey(chars, key, k) {
          var c :| c in chars && key(c) == k;
          if c != chars[0] {
            var i :| 0 <= i < |chars| && chars[i] == c;
            assert chars[1..][i - 1] == c;
          }
        }
        if HasKey(chars[1..], key, k) {
          var c :| c in chars[1..] && key(c) == k;
          assert c in chars;
        }
        if k == key(chars[0]) {
          assert chars[0] in chars;
        }
      }
    }
  }

  // ---------------------------------------------------------------------------
  // One line: the characters with a given key, in input order
  // ---------------------------------------------------------------------------

  function Line(chars: seq<Glyph>, key: Glyph -> int, k: int): (line: seq<Glyph>)
    decreases |chars|
  {
    if chars == [] then []
    else (if key(chars[0]) == k then [chars[0]] else []) + Line(chars[1..], key, k)
  }

  /** A line holds each character with key k as often as the input does, and nothing else. */
  lemma {:induction false} LineCounts(chars: seq<Glyph>, key: Glyph -> int, k: int)
    ensures forall c :: multiset(Line(chars, key, k))[c] == if key(c) == k then multiset(chars)[c] else 0
    decreases |chars|
  {
    if chars != [] {
      LineCounts(chars[1..], key, k);
      assert chars == [chars[0]] + chars[1..];
    }
  }

  // ---------------------------------------------------------------------------
  // Stable sort by left edge
  // ---------------------------------------------------------------------------

  predicate SortedByX(s: seq<Glyph>)
  {
    forall i, j :: 0 <= i < j < |s| ==> s[i].x <= s[j].x
  }

  /** The characters of s whose left edge is v, in order. */
  function WithX(s: seq<Glyph>, v: int): seq<Glyph>
    decreases |s|
  {
    if s == [] then [] else (if s[0].x == v then [s[0]] else []) + WithX(s[1..], v)
  }

  /** Inserts g before the first character that does not start left of it. */
  function InsertByX(g: Glyph, s: seq<Glyph>): seq<Glyph>
    decreases |s|
  {
    if s == [] || g.x <= s[0].x then [g] + s else [s[0]] + InsertByX(g, s[1..])
  }

  /** `sorted(line, key=lambda c: c['x'])`: a stable sort on the left edge. */
  function SortByX(s: seq<Glyph>): seq<Glyph>
    decreases |s|
  {
    if s == [] then [] else InsertByX(s[0], SortByX(s[1..]))
  }

  lemma {:induction false} InsertByXCounts(g: Glyph, s: seq<Glyph>)
    ensures multiset(InsertByX(g, s)) == multiset(s) + multiset{g}
    decreases |s|
  {
    if s != [] && g.x > s[0].x {
      InsertByXCounts(g, s[1..]);
      assert s == [s[0]] + s[1..];
    }
  }

  lemma InsertByXMembers(g: Glyph, s: seq<Glyph>)
    ensures forall c :: c in InsertByX(g, s) <==> c == g || c in s
  {
    InsertByXCounts(g, s);
    assert forall c :: c in InsertByX(g, s) <==> c in multiset(InsertByX(g, s));
  }

  lemma {:induction false} InsertByXSorted(g: Glyph, s: seq<Glyph>)
    requires SortedByX(s)
    ensures SortedByX(InsertByX(g, s))
    decreases |s|
  {
    if s != [] && g.x > s[0].x {
      var rest := InsertByX(g, s[1..]);
      SortedTail(s);
      InsertByXSorted(g, s[1..]);
      InsertByXMembers(g, s[1..]);
      assert forall c :: c in s[1..] ==> s[0].x <= c.x;
      assert forall c :: c in rest ==> s[0].x <= c.x;
      ConsSorted(s[0], rest);
    }
  }

  /** Putting a character in front of a sorted list whose edges are all at least its own
      keeps it sorted. */
  lemma ConsSorted(g: Glyph, s: seq<Glyph>)
    requires SortedByX(s) && forall c :: c in s ==> g.x <= c.x
    ensures SortedByX([g] + s)
  {
    var r := [g] + s;
    forall i, j | 0 <= i < j < |r| ensures r[i].x <= r[j].x
    {
      assert r[j] == s[j - 1];
      if i > 0 {
        assert r[i] == s[i - 1];
      } else {
        assert s[j - 1] in s;
      }
    }
  }

  /** Inserting g puts it ahead of every character with the same left edge. */
  lemma {:induction false} InsertByXWithX(g: Glyph, s: seq<Glyph>, v: int)
    ensures WithX(InsertByX(g, s), v) == (if g.x == v then [g] else []) + WithX(s, v)
    decreases |s|
  {
    var r := InsertByX(g, s);
    if s == [] || g.x <= s[0].x {
      assert r[0] == g && r[1..] == s;
    } else {
      var rest := InsertByX(g, s[1..]);
      InsertByXWithX(g, s[1..], v);
      assert r[0] == s[0] && r[1..] == rest;
      if s[0].x == v {
        assert WithX(r, v) == [s[0]] + WithX(rest, v);
        assert WithX(s, v) == [s[0]] + WithX(s[1..], v);
      } else {
        assert WithX(r, v) == WithX(rest, v);
        assert WithX(s, v) == WithX(s[1..], v);
      }
    }
  }

  /** The sort orders by left edge, loses and duplicates nothing, and keeps characters with
      the same left edge in their input order (it is stable). */
  lemma SortByXIsStableSort(s: seq<Glyph>)
    ensures SortedByX(SortByX(s))
    ensures multiset(SortByX(s)) == multiset(s)
    ensures forall v :: WithX(SortByX(s), v) == WithX(s, v)
  {
    SortByXSorted(s);
    SortByXCounts(s);
    SortByXStable(s);
  }

  lemma {:induction false} SortByXSorted(s: seq<Glyph>)
    ensures SortedByX(SortByX(s))
    decreases |s|
  {
    if s != [] {
      SortByXSorted(s[1..]);
      InsertByXSorted(s[0], SortByX(s[1..]));
    }
  }

  lemma {:induction false} SortByXCounts(s: seq<Glyph>)
    ensures multiset(SortByX(s)) == multiset(s)
    decreases |s|
  {
    if s != [] {
      SortByXCounts(s[1..]);
      InsertByXCounts(s[0], SortByX(s[1..]));
      assert s == [s[0]] + s[1..];
    }
  }

  lemma {:induction false} SortByXStable(s: seq<Glyph>)
    ensures forall v :: WithX(SortByX(s), v) == WithX(s, v)
    decreases |s|
  {
    if s != [] {
      SortByXStable(s[1..]);
      forall v ensures WithX(SortByX(s), v) == WithX(s, v)
      {
        InsertByXWithX(s[0], SortByX(s[1..]), v);
      }
    }
  }

  /** A stable sort is determined by what it keeps: two lists sorted by left edge that hold
      the same characters per left edge, in the same order, are equal. */
  lemma {:induction false} StableSortUnique(s: seq<Glyph>, t: seq<Glyph>)
    requires SortedByX(s) && SortedByX(t)
    requires forall v :: WithX(s, v) == WithX(t, v)
    ensures s == t
    decreases |s| + |t|
  {
    if s != [] && t != [] {
      SameHead(s, t);
      forall u ensures WithX(s[1..], u) == WithX(t[1..], u)
      {
        var a := if s[0].x == u then [s[0]] else [];
        assert WithX(s, u) == a + WithX(s[1..], u);
        assert WithX(t, u) == a + WithX(t[1..], u);
        assert WithX(s[1..], u) == (a + WithX(s[1..], u))[|a|..];
      }
      SortedTail(s);
      SortedTail(t);
      StableSortUnique(s[1..], t[1..]);
      assert s == [s[0]] + s[1..] && t == [t[0]] + t[1..];
    } else if s != [] {
      WithXHead(s);
      assert false;
    } else if t != [] {
      WithXHead(t);
      assert false;
    }
  }

  lemma WithXHead(s: seq<Glyph>)
    requires s != []
    ensures WithX(s, s[0].x) != []
  {
  }

  /** Two non-empty sorted lists with the same characters per left edge start alike. */
  lemma SameHead(s: seq<Glyph>, t: seq<Glyph>)
    requires SortedByX(s) && SortedByX(t) && s != [] && t != []
    requires forall v :: WithX(s, v) == WithX(t, v)
    ensures s[0] == t[0]
  {
    assert WithX(s, s[0].x) != [];
    assert WithX(t, t[0].x) != [];
    if t[0].x < s[0].x {
      WithXBelowSorted(s, t[0].x);
      assert false;
    } else if s[0].x < t[0].x {
      WithXBelowSorted(t, s[0].x);
      assert false;
    }
    assert WithX(s, s[0].x)[0] == s[0];
    assert WithX(t, t[0].x)[0] == t[0];
  }

  lemma SortedTail(s: seq<Glyph>)
    requires SortedByX(s) && s != []
    ensures SortedByX(s[1..])
  {
    forall i, j | 0 <= i < j < |s[1..]| ensures s[1..][i].x <= s[1..][j].x
    {
      assert s[1..][i] == s[i + 1] && s[1..][j] == s[j + 1];
    }
  }

  /** If v is below the head's left edge, no character of a sorted list has left edge v. */
  lemma {:induction false} WithXBelowSorted(s: seq<Glyph>, v: int)
    requires SortedByX(s) && (s == [] || v < s[0].x)
    ensures WithX(s, v) == []
    decreases |s|
  {
    if s != [] {
      if |s| > 1 {
        assert s[0].x <= s[1].x;
      }
      SortedTail(s);
      WithXBelowSorted(s[1..], v);
    }
  }

  // ---------------------------------------------------------------------------
  // Reversal
  // ---------------------------------------------------------------------------

  function Reverse(s: seq<Glyph>): (r: seq<Glyph>)
    ensures |r| == |s|
    decreases |s|
  {
    if s == [] then [] else Reverse(s[1..]) + [s[0]]
  }

  lemma {:induction false} ReverseIndex(s: seq<Glyph>)
    ensures forall i :: 0 <= i < |s| ==> Reverse(s)[i] == s[|s| - 1 - i]
    ensures multiset(Reverse(s)) == multiset(s)
    decreases |s|
  {
    if s != [] {
      ReverseIndex(s[1..]);
      assert s == [s[0]] + s[1..];
    }
  }

  /** Line number i (from 0) in the direction it is written: reversed on odd lines. */
  function Orient(i: nat, line: seq<Glyph>): seq<Glyph>
  {
    if i % 2 == 1 then Reverse(line) else line
  }

  // ---------------------------------------------------------------------------
  // The serpentine order
  // ---------------------------------------------------------------------------

  /** Lines with keys ks, numbered from i, each sorted and oriented, one after another. */
  function LinesFrom(chars: seq<Glyph>, key: Glyph -> int, ks: seq<int>, i: nat): seq<Glyph>
    decreases |ks|
  {
    if ks == [] then [] else Orient(i, SortByX(Line(chars, key, ks[0]))) + LinesFrom(chars, key, ks[1..], i + 1)
  }

  /** The characters in drawing order. */
  function Serpentine(chars: seq<Glyph>, key: Glyph -> int): seq<Glyph>
  {
    LinesFrom(chars, key, LineKeys(chars, key), 0)
  }

  /** Line i, written in its direction, holds the characters with key k, each once. */
  lemma OrientedLineCounts(chars: seq<Glyph>, key: Glyph -> int, k: int, i: nat)
    ensures forall c :: multiset(Orient(i, SortByX(Line(chars, key, k))))[c]
                     == if key(c) == k then multiset(chars)[c] else 0
  {
    var line := Line(chars, key, k);
    LineCounts(chars, key, k);
    SortByXIsStableSort(line);
    ReverseIndex(SortByX(line));
  }

  lemma {:induction false} LinesFromCounts(chars: seq<Glyph>, key: Glyph -> int, ks: seq<int>, i: nat)
    requires StrictlyAscending(ks)
    ensures forall c :: multiset(LinesFrom(chars, key, ks, i))[c] == if key(c) in ks then multiset(chars)[c] else 0
    decreases |ks|
  {
    if ks != [] {
      var head := Orient(i, SortByX(Line(chars, key, ks[0])));
      LinesFromCounts(chars, key, ks[1..], i + 1);
      OrientedLineCounts(chars, key, ks[0], i);
      assert StrictlyAscending(ks[1..]);
      assert forall k :: k in ks <==> k == ks[0] || k in ks[1..];
      assert ks[0] !in ks[1..];
    }
  }

  /** Grouping, sorting and reversing lose and duplicate nothing. */
  lemma SerpentineIsPermutation(chars: seq<Glyph>, key: Glyph -> int)
    ensures multiset(Serpentine(chars, key)) == multiset(chars)
  {
    var ks := LineKeys(chars, key);
    LineKeysAreSortedKeys(chars, key);
    LinesFromCounts(chars, key, ks, 0);
    forall c ensures multiset(Serpentine(chars, key))[c] == multiset(chars)[c]
    {
      if c in chars {
        assert HasKey(chars, key, key(c));
      }
    }
  }

  /** Every character of line i, as written, has key k. */
  lemma OrientedLineKeys(chars: seq<Glyph>, key: Glyph -> int, k: int, i: nat)
    ensures forall c :: c in Orient(i, SortByX(Line(chars, key, k))) ==> key(c) == k
  {
    OrientedLineCounts(chars, key, k, i);
    forall c | c in Orient(i, SortByX(Line(chars, key, k))) ensures key(c) == k
    {
      assert multiset(Orient(i, SortByX(Line(chars, key, k))))[c] > 0;
    }
  }

  /** The characters of lines ks all have keys among ks. */
  lemma {:induction false} LinesFromKeys(chars: seq<Glyph>, key: Glyph -> int, ks: seq<int>, i: nat)
    ensures forall c :: c in LinesFrom(chars, key, ks, i) ==> key(c) in ks
    decreases |ks|
  {
    if ks != [] {
      LinesFromKeys(chars, key, ks[1..], i + 1);
      OrientedLineKeys(chars, key, ks[0], i);
    }
  }

  /** Whether two left edges are in the order line i is written in. */
  predicate InDirection(i: nat, a: int, b: int)
  {
    if i % 2 == 0 then a <= b else a >= b
  }

  /** A line, written in its direction, is sorted in that direction. */
  lemma OrientedLineDirection(line: seq<Glyph>, i: nat)
    ensures forall p, q :: 0 <= p < q < |Orient(i, SortByX(line))| ==>
      InDirection(i, Orient(i, SortByX(line))[p].x, Orient(i, SortByX(line))[q].x)
  {
    var s := SortByX(line);
    SortByXIsStableSort(line);
    ReverseIndex(s);
  }

  /** Lines come in ascending key order. */
  lemma {:induction false} LinesFromKeyOrder(chars: seq<Glyph>, key: Glyph -> int, ks: seq<int>, i: nat)
    requires StrictlyAscending(ks)
    ensures forall p, q :: 0 <= p < q < |LinesFrom(chars, key, ks, i)| ==>
      key(LinesFrom(chars, key, ks, i)[p]) <= key(LinesFrom(chars, key, ks, i)[q])
    decreases |ks|
  {
    if ks != [] {
      var head := Orient(i, SortByX(Line(chars, key, ks[0])));
      var tail := LinesFrom(chars, key, ks[1..], i + 1);
      var r := LinesFrom(chars, key, ks, i);
      assert r == head + tail;
      assert StrictlyAscending(ks[1..]);
      LinesFromKeyOrder(chars, key, ks[1..], i + 1);
      OrientedLineKeys(chars, key, ks[0], i);
      TailKeysAbove(chars, key, ks, i);
      forall p, q | 0 <= p < q < |r| ensures key(r[p]) <= key(r[q])
      {
        if q < |head| {
          assert r[p] in head && r[q] in head;
        } else if p < |head| {
          assert r[p] in head && r[q] == tail[q - |head|];
        } else {
          assert r[p] == tail[p - |head|] && r[q] == tail[q - |head|];
        }
      }
    }
  }

  /** Every character after the first line has a key above the first line's. */
  lemma TailKeysAbove(chars: seq<Glyph>, key: Glyph -> int, ks: seq<int>, i: nat)
    requires StrictlyAscending(ks) && ks != []
    ensures forall c :: c in LinesFrom(chars, key, ks[1..], i + 1) ==> ks[0] < key(c)
  {
    LinesFromKeys(chars, key, ks[1..], i + 1);
    forall c | c in LinesFrom(chars, key, ks[1..], i + 1) ensures ks[0] < key(c)
    {
      var m :| 0 <= m < |ks[1..]| && ks[1..][m] == key(c);
      assert ks[m + 1] == key(c);
    }
  }

  /** Within line number j (counting from i) the characters are in that line's direction. */
  lemma {:induction false} LinesFromDirection(chars: seq<Glyph>, key: Glyph -> int, ks: seq<int>, i: nat)
    requires StrictlyAscending(ks)
    ensures forall j, p, q ::
      (0 <= j < |ks| && 0 <= p < q < |LinesFrom(chars, key, ks, i)|
       && key(LinesFrom(chars, key, ks, i)[p]) == ks[j] && key(LinesFrom(chars, key, ks, i)[q]) == ks[j]) ==>
      InDirection(i + j, LinesFrom(chars, key, ks, i)[p].x, LinesFrom(chars, key, ks, i)[q].x)
    decreases |ks|
  {
    if ks != [] {
      var head := Orient(i, SortByX(Line(chars, key, ks[0])));
      var tail := LinesFrom(chars, key, ks[1..], i + 1);
      var r := LinesFrom(chars, key, ks, i);
      assert r == head + tail;
      assert StrictlyAscending(ks[1..]);
      LinesFromDirection(chars, key, ks[1..], i + 1);
      OrientedLineKeys(chars, key, ks[0], i);
      OrientedLineDirection(Line(chars, key, ks[0]), i);
      TailKeysAbove(chars, key, ks, i);
      forall j, p, q | 0 <= j < |ks| && 0 <= p < q < |r| && key(r[p]) == ks[j] && key(r[q]) == ks[j]
        ensures InDirection(i + j, r[p].x, r[q].x)
      {
        if q < |head| {
          assert r[p] == head[p] && r[q] == head[q];
          assert r[q] in head;
          assert j == 0;
        } else if p < |head| {
          assert false;
        } else {
          assert r[p] == tail[p - |head|] && r[q] == tail[q - |head|];
          assert r[q] in tail;
          assert ks[1..][j - 1] == ks[j];
        }
      }
    }
  }

  /** The drawing order: lines in ascending key order, each character once; within the
      j-th line (from 0) left edges ascend when j is even and descend when j is odd. */
  lemma SerpentineOrder(chars: seq<Glyph>, key: Glyph -> int)
    ensures multiset(Serpentine(chars, key)) == multiset(chars)
    ensures forall p, q :: 0 <= p < q < |Serpentine(chars, key)| ==>
      key(Serpentine(chars, key)[p]) <= key(Serpentine(chars, key)[q])
    ensures forall j, p, q ::
      (0 <= j < |LineKeys(chars, key)| && 0 <= p < q < |Serpentine(chars, key)|
       && key(Serpentine(chars, key)[p]) == LineKeys(chars, key)[j]
       && key(Serpentine(chars, key)[q]) == LineKeys(chars, key)[j]) ==>
      InDirection(j, Serpentine(chars, key)[p].x, Serpentine(chars, key)[q].x)
  {
    SerpentineIsPermutation(chars, key);
    LineKeysAreSortedKeys(chars, key);
    LinesFromKeyOrder(chars, key, LineKeys(chars, key), 0);
    LinesFromDirection(chars, key, LineKeys(chars, key), 0);
  }
}
