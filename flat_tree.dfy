/**
 * The flat tree (src/flat_tree.rs, `Tree`): the displayed lines in
 * pre-order and the index of the selected one. Navigation and search only
 * ever change `selection`; the lines are read.
 */
module FlatTree {
  import opened Wrappers
  import opened TreeLines
  import opened Selection

  class Tree {
    var lines: seq<TreeLine>
    /** There is always a selection; it starts at the root, line 0. */
    var selection: nat

    /** The selection points at a selectable line. */
    predicate Valid()
      reads this, lines
      ensures Valid() ==> selection < |lines| && lines[selection].Name().Some?
    {
      selection < |lines| && !lines[selection].content.Pruning?
    }

    function Keys(): (ks: seq<string>)
      reads this`lines, lines
      ensures |ks| == |lines| && forall i :: 0 <= i < |lines| ==> ks[i] == lines[i].key
    {
      var ls := lines;
      seq(|ls|, i requires 0 <= i < |ls| reads ls => ls[i].key)
    }

    function Contents(): (cs: seq<LineType>)
      reads this`lines, lines
      ensures |cs| == |lines| && forall i :: 0 <= i < |lines| ==> cs[i] == lines[i].content
    {
      var ls := lines;
      seq(|ls|, i requires 0 <= i < |ls| reads ls => ls[i].content)
    }

    /** The score `pattern` gives each line; Pruning lines are not tested. */
    function Scores(pattern: string -> Option<int>): (ss: seq<Option<int>>)
      reads this`lines, lines
      ensures |ss| == |lines|
      ensures forall i :: 0 <= i < |lines| ==> ss[i] == MatchScore(lines[i].Name(), pattern)
    {
      var ls := lines;
      seq(|ls|, i requires 0 <= i < |ls| reads ls => MatchScore(ls[i].Name(), pattern))
    }

    /** Whether a vertical connector is drawn for line `lineIndex` at
        `depth`; out-of-range queries answer false. */
    function HasBranch(lineIndex: nat, depth: nat): (b: bool)
      reads this`lines, lines
      requires lineIndex < |lines| && depth < lines[lineIndex].depth ==> depth < |lines[lineIndex].leftBranchs|
      ensures lineIndex >= |lines| ==> !b
      ensures lineIndex < |lines| && depth >= lines[lineIndex].depth ==> !b
      ensures lineIndex < |lines| && depth < lines[lineIndex].depth ==> b == lines[lineIndex].leftBranchs[depth]
    {
      if lineIndex >= |lines| then false
      else
        var line := lines[lineIndex];
        if depth >= line.depth then false
        else line.leftBranchs[depth]
    }

    /** Selects the first line whose key is `key`; changes nothing when no
        line has it. */
    method TrySelect(key: string) returns (found: bool)
      modifies this`selection
      ensures found == FirstIndexOf(Keys(), key).Some?
      ensures found <==> exists i :: 0 <= i < |lines| && lines[i].key == key
      ensures selection == if found then FirstIndexOf(Keys(), key).value else old(selection)
    {
      for i := 0 to |lines|
        invariant selection == old(selection)
        invariant forall j :: 0 <= j < i ==> lines[j].key != key
      {
        if key == lines[i].key {
          selection := i;
          assert Keys()[i] == key;
          return true;
        }
      }
      assert key !in Keys();
      return false;
    }

    /** Moves the selection by `dy` lines, cyclically, past every Pruning
        line. The loop stops only on a selectable line, so one must be
        reached within a full cycle of steps. */
    method MoveSelection(dy: int)
      requires StepDefined(|lines|, dy)
      requires FirstSelectableStep(Contents(), selection, dy, 1).Some?
      modifies this`selection
      ensures selection == Iter(old(selection), |lines|, dy, FirstSelectableStep(Contents(), old(selection), dy, 1).value)
      ensures Valid()
    {
      ghost var s0 := selection;
      ghost var cs := Contents();
      ghost var k: nat := 0;
      while true
        invariant selection == Iter(s0, |lines|, dy, k)
        invariant FirstSelectableStep(cs, s0, dy, k + 1) == FirstSelectableStep(cs, s0, dy, 1)
        decreases |lines| - k
      {
        var l := |lines|;
        selection := (selection + (l + dy)) % l;
        k := k + 1;
        match lines[selection].content
        case Dir(_, _) =>
          break;
        case File(_) =>
          break;
        case Pruning(_) =>
      }
    }

    /** The key of the selected line. */
    function Key(): (k: string)
      reads this, lines
      requires selection < |lines|
      ensures k == Keys()[selection]
      ensures FirstIndexOf(Keys(), k).Some?
    {
      lines[selection].key
    }

    function SelectedLine(): (line: TreeLine)
      reads this
      requires selection < |lines|
      ensures line == lines[selection]
    {
      lines[selection]
    }

    /** The path of line 0, the root. */
    function Root(): (p: Path)
      reads this`lines, lines
      requires |lines| > 0
      ensures p == lines[0].path
    {
      lines[0].path
    }

    /** Selects the line with the highest positive score, the earliest one on
        a tie; reports whether some line scored above 0. */
    method TrySelectBestMatch(pattern: string -> Option<int>) returns (found: bool)
      modifies this`selection
      ensures found == (BestScan(Scores(pattern), old(selection)).0 > 0)
      ensures selection == BestScan(Scores(pattern), old(selection)).1
      ensures found ==> selection < |lines| && lines[selection].Name().Some?
      ensures old(Valid()) ==> Valid()
    {
      ghost var ss := Scores(pattern);
      ghost var s0 := selection;
      var bestScore := 0;
      for idx := 0 to |lines|
        invariant (bestScore, selection) == BestScan(ss[..idx], s0)
      {
        var name := lines[idx].Name();
        if name.Some? {
          var m := pattern(name.value);
          if m.Some? {
            if m.value > bestScore {
              bestScore := m.value;
              selection := idx;
            }
          }
        }
        assert ss[..idx + 1][..idx] == ss[..idx];
      }
      assert ss[..|lines|] == ss;
      return bestScore > 0;
    }

    /** Selects the next line after the selection, cyclically, whose name
        the pattern matches; the selected line itself is tested last.
        Changes nothing when no line matches. */
    method TrySelectNextMatch(pattern: string -> Option<int>) returns (found: bool)
      modifies this`selection
      ensures found == NextMatchFrom(Scores(pattern), old(selection), 0).Some?
      ensures found ==> selection == ScanIndex(old(selection), |lines|, NextMatchFrom(Scores(pattern), old(selection), 0).value)
      ensures !found ==> selection == old(selection)
      ensures found ==> lines[selection].Name().Some?
      ensures old(Valid()) ==> Valid()
    {
      ghost var ss := Scores(pattern);
      for di := 0 to |lines|
        invariant selection == old(selection)
        invariant NextMatchFrom(ss, selection, di) == NextMatchFrom(ss, selection, 0)
      {
        var idx := (selection + di + 1) % |lines|;
        var name := lines[idx].Name();
        if name.Some? {
          if pattern(name.value).Some? {
            assert ss[ScanIndex(selection, |lines|, di)].Some?;
            selection := idx;
            return true;
          }
        }
      }
      return false;
    }
  }
}
