/**
 * The splitter for a file holding several inputs: lines starting with `INPUT:` open a new
 * named group, every other line belongs to the group currently open, and empty groups are
 * never reported.
 */
module InputSplitter {

  /** The six characters that open a group. */
  const MARKER := "INPUT:"

  /** A named group of input lines. */
  datatype Group = Group(name: string, lines: seq<string>)

  /** Python's `line[:6] == "INPUT:"`: a shorter line never matches. */
  predicate IsMarker(line: string) {
    |line| >= 6 && line[..6] == MARKER
  }

  /** Python's `line[7:]`: the marker line without its first seven characters. */
  function NameOf(line: string): string {
    if |line| >= 7 then line[7..] else ""
  }

  /** The group being closed, reported only when it holds a line. */
  function Flush(name: string, current: seq<string>): seq<Group> {
    if current == [] then [] else [Group(name, current)]
  }

  /**
   * The groups still to come when `name` is open holding `current` and `rest` is unread:
   * a marker closes the open group and opens a new one; any other line joins the open group.
   */
  function SplitFrom(name: string, current: seq<string>, rest: seq<string>): seq<Group>
    decreases |rest|
  {
    if rest == [] then Flush(name, current)
    else if IsMarker(rest[0]) then Flush(name, current) + SplitFrom(NameOf(rest[0]), [], rest[1..])
    else SplitFrom(name, current + [rest[0]], rest[1..])
  }

  /** What `_get_input` yields: the group named "" is open at the start. */
  function Groups(lines: seq<string>): seq<Group> {
    SplitFrom("", [], lines)
  }

  /** Reads the lines once, closing the open group at each marker and at the end. */
  method GetInput(lines: seq<string>) returns (groups: seq<Group>)
    ensures groups == Groups(lines)
  {
    var name := "";
    var current: seq<string> := [];
    groups := [];
    for i := 0 to |lines|
      invariant groups + SplitFrom(name, current, lines[i..]) == Groups(lines)
    {
      var line := lines[i];
      assert lines[i..][0] == line && lines[i..][1..] == lines[i + 1..];
      if IsMarker(line) {
        groups := groups + Flush(name, current);
        name := NameOf(line);
        current := [];
      } else {
        current := current + [line];
      }
    }
    groups := groups + Flush(name, current);
  }

  // ---------------------------------------------------------------------------
  // Reference definitions

  /** All the groups' lines, in order. */
  function Content(groups: seq<Group>): seq<string> {
    if groups == [] then [] else groups[0].lines + Content(groups[1..])
  }

  /** The lines that are not markers, in order. */
  function Kept(lines: seq<string>): seq<string> {
    if lines == [] then []
    else (if IsMarker(lines[0]) then [] else [lines[0]]) + Kept(lines[1..])
  }

  /** How many lines are markers. */
  function Markers(lines: seq<string>): nat {
    if lines == [] then 0
    else (if IsMarker(lines[0]) then 1 else 0) + Markers(lines[1..])
  }

  /** `name` is the name a group starting at line `s` gets: "" at the top, else its marker's. */
  predicate Opens(lines: seq<string>, s: nat, name: string) {
    (s == 0 && name == "") || (0 < s <= |lines| && IsMarker(lines[s - 1]) && name == NameOf(lines[s - 1]))
  }

  /** `g` is the run of input lines starting at line `t`, named as a group starting there is. */
  predicate RunAt(lines: seq<string>, t: nat, g: Group) {
    t + |g.lines| <= |lines| && Opens(lines, t, g.name) && lines[t..t + |g.lines|] == g.lines
  }

  // ---------------------------------------------------------------------------
  // Properties

  lemma {:induction false} ContentAppend(a: seq<Group>, b: seq<Group>)
    ensures Content(a + b) == Content(a) + Content(b)
  {
    if a == [] {
      assert a + b == b;
    } else {
      var ab := a + b;
      assert ab[0] == a[0];
      assert ab[1..] == a[1..] + b;
      ContentAppend(a[1..], b);
      calc {
        Content(ab);
        a[0].lines + Content(a[1..] + b);
        a[0].lines + (Content(a[1..]) + Content(b));
        (a[0].lines + Content(a[1..])) + Content(b);
      }
    }
  }

  /** The groups hold the open group's lines followed by every unread line that is not a marker. */
  lemma {:induction false} SplitFromContent(name: string, current: seq<string>, rest: seq<string>)
    ensures Content(SplitFrom(name, current, rest)) == current + Kept(rest)
    decreases |rest|
  {
    if rest == [] {
    } else if IsMarker(rest[0]) {
      SplitFromContent(NameOf(rest[0]), [], rest[1..]);
      ContentAppend(Flush(name, current), SplitFrom(NameOf(rest[0]), [], rest[1..]));
    } else {
      SplitFromContent(name, current + [rest[0]], rest[1..]);
    }
  }

  /** Concatenating the groups gives exactly the lines that are not markers, in their order. */
  lemma GroupsContent(lines: seq<string>)
    ensures Content(Groups(lines)) == Kept(lines)
  {
    SplitFromContent("", [], lines);
  }

  /** Every group holds at least one line. */
  lemma {:induction false} SplitFromNonEmpty(name: string, current: seq<string>, rest: seq<string>)
    ensures forall p :: 0 <= p < |SplitFrom(name, current, rest)| ==> SplitFrom(name, current, rest)[p].lines != []
    decreases |rest|
  {
    if rest == [] {
    } else if IsMarker(rest[0]) {
      SplitFromNonEmpty(NameOf(rest[0]), [], rest[1..]);
    } else {
      SplitFromNonEmpty(name, current + [rest[0]], rest[1..]);
    }
  }

  /** No reported group is empty. */
  lemma GroupsNonEmpty(lines: seq<string>)
    ensures forall p :: 0 <= p < |Groups(lines)| ==> Groups(lines)[p].lines != []
  {
    SplitFromNonEmpty("", [], lines);
  }

  /** If the open group holds no marker, no group does. */
  lemma {:induction false} SplitFromNoMarker(name: string, current: seq<string>, rest: seq<string>)
    requires forall k :: 0 <= k < |current| ==> !IsMarker(current[k])
    ensures forall p, k :: 0 <= p < |SplitFrom(name, current, rest)| && 0 <= k < |SplitFrom(name, current, rest)[p].lines| ==>
      !IsMarker(SplitFrom(name, current, rest)[p].lines[k])
    decreases |rest|
  {
    if rest == [] {
    } else if IsMarker(rest[0]) {
      SplitFromNoMarker(NameOf(rest[0]), [], rest[1..]);
    } else {
      SplitFromNoMarker(name, current + [rest[0]], rest[1..]);
    }
  }

  /** No group contains a marker line. */
  lemma GroupsNoMarker(lines: seq<string>)
    ensures forall p, k :: 0 <= p < |Groups(lines)| && 0 <= k < |Groups(lines)[p].lines| ==>
      !IsMarker(Groups(lines)[p].lines[k])
  {
    SplitFromNoMarker("", [], lines);
  }

  /** At most one group per marker, plus the one open at the start. */
  lemma {:induction false} SplitFromCount(name: string, current: seq<string>, rest: seq<string>)
    ensures |SplitFrom(name, current, rest)| <= Markers(rest) + 1
    decreases |rest|
  {
    if rest == [] {
    } else if IsMarker(rest[0]) {
      SplitFromCount(NameOf(rest[0]), [], rest[1..]);
    } else {
      SplitFromCount(name, current + [rest[0]], rest[1..]);
    }
  }

  /** There are at most as many groups as markers plus one. */
  lemma GroupsCount(lines: seq<string>)
    ensures |Groups(lines)| <= Markers(lines) + 1
  {
    SplitFromCount("", [], lines);
  }

  /** Without markers the open group takes every remaining line. */
  lemma {:induction false} SplitFromWithoutMarkers(name: string, current: seq<string>, rest: seq<string>)
    requires Markers(rest) == 0
    ensures SplitFrom(name, current, rest) == Flush(name, current + rest)
    decreases |rest|
  {
    if rest == [] {
      assert current + rest == current;
    } else {
      assert !IsMarker(rest[0]);
      SplitFromWithoutMarkers(name, current + [rest[0]], rest[1..]);
      assert [rest[0]] + rest[1..] == rest;
      assert current + [rest[0]] + rest[1..] == current + rest;
    }
  }

  /** Input without markers yields nothing when empty, otherwise one group named "" with every line. */
  lemma GroupsWithoutMarkers(lines: seq<string>)
    requires Markers(lines) == 0
    ensures Groups(lines) == if lines == [] then [] else [Group("", lines)]
  {
    SplitFromWithoutMarkers("", [], lines);
    assert [] + lines == lines;
  }

  /**
   * Each group from line i on is a run of consecutive input lines named as its start opens,
   * given that the open group is the run lines[s..i] opened at s.
   */
  lemma {:induction false} SplitFromNames(lines: seq<string>, s: nat, i: nat, name: string)
    requires s <= i <= |lines| && Opens(lines, s, name)
    ensures forall g :: g in SplitFrom(name, lines[s..i], lines[i..]) ==> exists t: nat :: RunAt(lines, t, g)
    decreases |lines| - i
  {
    var groups := SplitFrom(name, lines[s..i], lines[i..]);
    if i == |lines| {
      assert lines[i..] == [];
      forall g | g in groups ensures RunAt(lines, s, g) {
        assert g == Group(name, lines[s..i]);
      }
    } else {
      assert lines[i..][0] == lines[i] && lines[i..][1..] == lines[i + 1..];
      if IsMarker(lines[i]) {
        assert lines[i + 1..i + 1] == [];
        SplitFromNames(lines, i + 1, i + 1, NameOf(lines[i]));
        var tail := SplitFrom(NameOf(lines[i]), lines[i + 1..i + 1], lines[i + 1..]);
        var head := Flush(name, lines[s..i]);
        assert groups == head + tail;
        forall g | g in head ensures RunAt(lines, s, g) {
          assert g == Group(name, lines[s..i]);
        }
      } else {
        assert lines[s..i] + [lines[i]] == lines[s..i + 1];
        assert groups == SplitFrom(name, lines[s..i + 1], lines[i + 1..]);
        SplitFromNames(lines, s, i + 1, name);
      }
    }
  }

  /**
   * Every group is a run of consecutive input lines; the run at the top is named "", any
   * other is named after the marker line just before it, without its first seven characters.
   */
  lemma GroupsNames(lines: seq<string>)
    ensures forall g :: g in Groups(lines) ==> exists t: nat :: RunAt(lines, t, g)
  {
    SplitFromNames(lines, 0, 0, "");
    assert lines[0..0] == [] && lines[0..] == lines;
  }

  /**
   * A marker followed by another marker, or by the end of input, opens no group: no group is a run
   * starting just after it.
   */
  lemma MarkerOpensNoGroup(lines: seq<string>, i: nat)
    requires i < |lines| && IsMarker(lines[i]) && (i + 1 == |lines| || IsMarker(lines[i + 1]))
    ensures forall g :: g in Groups(lines) ==> !RunAt(lines, i + 1, g)
  {
    GroupsNonEmpty(lines);
    GroupsNoMarker(lines);
    forall g | g in Groups(lines)
      ensures !RunAt(lines, i + 1, g)
    {
      var p :| 0 <= p < |Groups(lines)| && Groups(lines)[p] == g;
      assert g.lines != [] && !IsMarker(g.lines[0]);
    }
  }

  /** Example: two markers in a row, or a marker at the end, produce no group for the first one. */
  lemma EmptyGroupSkipped()
    ensures Groups(["INPUT: a", "INPUT: b", "x"]) == [Group("b", ["x"])]
    ensures Groups(["x", "INPUT: a"]) == [Group("", ["x"])]
  {
    assert IsMarker("INPUT: a") && IsMarker("INPUT: b") && !IsMarker("x");
    assert NameOf("INPUT: b") == "b";
    var first := ["INPUT: a", "INPUT: b", "x"];
    assert first[1..] == ["INPUT: b", "x"] && first[1..][1..] == ["x"] && ["x"][1..] == [];
    assert [] + ["x"] == ["x"];
    assert SplitFrom("b", [], ["x"]) == SplitFrom("b", ["x"], []);
    var second := ["x", "INPUT: a"];
    assert second[1..] == ["INPUT: a"] && second[1..][1..] == [];
    assert SplitFrom("", [], second) == SplitFrom("", ["x"], ["INPUT: a"]);
  }
}
