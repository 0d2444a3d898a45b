/**
 * The key codec of the flat tree: a sibling rank becomes one code character,
 * and a line's key is the sequence of code characters of its ancestor ranks
 * (src/flat_tree.rs, `index_to_char` and `TreeLine::fill_key`).
 */
module KeyCodec {

  /** The code character of a sibling rank: 1..26 are 'a'..'z', 27..36 are
      '0'..'9', 37..60 are 'A'..'X', and every other rank is a blank. */
  function IndexToChar(i: nat): (c: char)
    ensures 1 <= i <= 26 <==> 'a' <= c <= 'z'
    ensures 27 <= i <= 36 <==> '0' <= c <= '9'
    ensures 37 <= i <= 60 <==> 'A' <= c <= 'X'
    ensures !(1 <= i <= 60) <==> c == ' '
  {
    if 1 <= i <= 26 then (96 + i) as char
    else if 27 <= i <= 36 then (47 - 26 + i) as char
    else if 37 <= i <= 60 then (64 - 36 + i) as char
    else ' '
  }

  /** Reads a code character back as the rank it encodes (0 for a character
      outside the code alphabet). */
  function CharToIndex(c: char): (i: nat)
    ensures 1 <= i <= 60 <==> ('a' <= c <= 'z' || '0' <= c <= '9' || 'A' <= c <= 'X')
  {
    if 'a' <= c <= 'z' then c as int - 96
    else if '0' <= c <= '9' then c as int - 47 + 26
    else if 'A' <= c <= 'X' then c as int - 64 + 36
    else 0
  }

  lemma IndexToCharRoundTrip(i: nat)
    requires 1 <= i <= 60
    ensures CharToIndex(IndexToChar(i)) == i
  {
  }

  lemma CharToIndexRoundTrip(c: char)
    requires 'a' <= c <= 'z' || '0' <= c <= '9' || 'A' <= c <= 'X'
    ensures IndexToChar(CharToIndex(c)) == c
  {
  }

  /** Distinct ranks in 1..60 get distinct code characters. */
  lemma IndexToCharInjective(i: nat, j: nat)
    requires 1 <= i <= 60 && 1 <= j <= 60
    requires IndexToChar(i) == IndexToChar(j)
    ensures i == j
  {
    IndexToCharRoundTrip(i);
    IndexToCharRoundTrip(j);
  }

  /** Within each band of the alphabet the code follows the rank order. */
  lemma IndexToCharMonotone(i: nat, j: nat)
    requires 1 <= i < j <= 26 || 27 <= i < j <= 36 || 37 <= i < j <= 60
    ensures IndexToChar(i) < IndexToChar(j)
  {
  }

  /** The characters `fill_key(ranks, depth)` appends: one per level
      0..depth-1, the code of `ranks[level + 1]`. Index 0 of `ranks` (the
      root's rank) is never read. */
  function KeyCode(ranks: seq<nat>, depth: nat): (key: string)
    requires depth == 0 || depth < |ranks|
    ensures |key| == depth
    ensures forall i :: 0 <= i < depth ==> key[i] == IndexToChar(ranks[i + 1])
  {
    if depth == 0 then "" else KeyCode(ranks, depth - 1) + [IndexToChar(ranks[depth])]
  }

  /** A shallower key is a prefix of a deeper one built from the same ranks:
      the key of an ancestor is a prefix of its descendant's key. */
  lemma {:induction false} KeyCodePrefix(ranks: seq<nat>, d1: nat, d2: nat)
    requires d1 <= d2
    requires d2 == 0 || d2 < |ranks|
    ensures KeyCode(ranks, d1) == KeyCode(ranks, d2)[..d1]
    decreases d2
  {
    if d1 < d2 {
      KeyCodePrefix(ranks, d1, d2 - 1);
      assert KeyCode(ranks, d2)[..d2 - 1] == KeyCode(ranks, d2 - 1);
    }
  }

  /** Ranks in 1..60 are recovered from the key: two rank paths with the same
      key agree on every level the key covers. */
  lemma KeyCodeInjective(r1: seq<nat>, r2: seq<nat>, depth: nat)
    requires depth < |r1| && depth < |r2|
    requires forall i :: 1 <= i <= depth ==> 1 <= r1[i] <= 60 && 1 <= r2[i] <= 60
    requires KeyCode(r1, depth) == KeyCode(r2, depth)
    ensures r1[1..depth + 1] == r2[1..depth + 1]
  {
    forall i | 1 <= i <= depth
      ensures r1[i] == r2[i]
    {
      assert KeyCode(r1, depth)[i - 1] == KeyCode(r2, depth)[i - 1];
      IndexToCharInjective(r1[i], r2[i]);
    }
  }

  /** Ranks in 1..26 give a key of lower-case letters only. */
  lemma KeyCodeLowercase(ranks: seq<nat>, depth: nat)
    requires depth == 0 || depth < |ranks|
    requires forall i :: 1 <= i <= depth ==> 1 <= ranks[i] <= 26
    ensures forall i :: 0 <= i < depth ==> 'a' <= KeyCode(ranks, depth)[i] <= 'z'
  {
  }

  /** Strict lexicographic order on strings, as Rust compares `String`s of
      code characters. */
  predicate LexLess(a: string, b: string)
    decreases |a|
  {
    |b| > 0 && (|a| == 0 || a[0] < b[0] || (a[0] == b[0] && LexLess(a[1..], b[1..])))
  }

  lemma {:induction false} LexLessIrreflexive(a: string)
    ensures !LexLess(a, a)
    decreases |a|
  {
    if |a| > 0 {
      LexLessIrreflexive(a[1..]);
    }
  }

  lemma {:induction false} LexLessAsymmetric(a: string, b: string)
    requires LexLess(a, b)
    ensures !LexLess(b, a)
    decreases |a|
  {
    if |a| > 0 && a[0] == b[0] {
      LexLessAsymmetric(a[1..], b[1..]);
    }
  }

  lemma {:induction false} LexLessCommonPrefix(p: string, x: char, y: char)
    requires x < y
    ensures LexLess(p + [x], p + [y])
    decreases |p|
  {
    if p != [] {
      LexLessCommonPrefix(p[1..], x, y);
      assert (p + [x])[1..] == p[1..] + [x];
      assert (p + [y])[1..] == p[1..] + [y];
    }
  }

  /** Two rank paths that differ only at the last level, both ranks in 1..26,
      give keys ordered the same way as those last ranks. */
  lemma KeyCodeLastRankOrder(r1: seq<nat>, r2: seq<nat>, depth: nat)
    requires 0 < depth < |r1| && depth < |r2|
    requires forall i :: 1 <= i < depth ==> r1[i] == r2[i]
    requires 1 <= r1[depth] < r2[depth] <= 26
    ensures LexLess(KeyCode(r1, depth), KeyCode(r2, depth))
  {
    var p := KeyCode(r1, depth - 1);
    assert p == KeyCode(r2, depth - 1);
    IndexToCharMonotone(r1[depth], r2[depth]);
    LexLessCommonPrefix(p, IndexToChar(r1[depth]), IndexToChar(r2[depth]));
  }

  /** The converse as well: for such paths the keys are in LexLess order
      exactly when the last ranks are in numeric order. */
  lemma KeyCodeLastRankOrderIff(r1: seq<nat>, r2: seq<nat>, depth: nat)
    requires 0 < depth < |r1| && depth < |r2|
    requires forall i :: 1 <= i < depth ==> r1[i] == r2[i]
    requires 1 <= r1[depth] <= 26 && 1 <= r2[depth] <= 26
    ensures LexLess(KeyCode(r1, depth), KeyCode(r2, depth)) <==> r1[depth] < r2[depth]
  {
    if r1[depth] < r2[depth] {
      KeyCodeLastRankOrder(r1, r2, depth);
    } else if r2[depth] < r1[depth] {
      KeyCodeLastRankOrder(r2, r1, depth);
      LexLessAsymmetric(KeyCode(r2, depth), KeyCode(r1, depth));
    } else {
      assert KeyCode(r1, depth) == KeyCode(r2, depth);
      LexLessIrreflexive(KeyCode(r1, depth));
    }
  }
}
