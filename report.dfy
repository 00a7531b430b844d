/** The readable form of a grouping: participant indices replaced by roster names, one line
    `Group <k>: <name>, <name>, ...` per group (groups numbered from 1), lines separated by
    a newline. The lemmas show the text loses nothing: the names of a partition are the
    roster, and the lines, the group numbers and the member lists can be read back. */
module Report {
  import opened Wrappers
  import opened Collections
  import opened Grouping

  // ---------------------------------------------------------------------------
  // Names

  /** The names of the participants `ids`, in the same order. */
  function Names(persons: seq<string>, ids: seq<nat>): (r: seq<string>)
    requires InRange(ids, |persons|)
    ensures |r| == |ids|
  {
    seq(|ids|, i requires 0 <= i < |ids| => persons[ids[i]])
  }

  /** Every group of indices turned into the group of its members' names. */
  function NameGroups(persons: seq<string>, gs: seq<seq<nat>>): (r: seq<seq<string>>)
    requires GroupsInRange(gs, |persons|)
    ensures |r| == |gs|
  {
    seq(|gs|, g requires 0 <= g < |gs| => Names(persons, gs[g]))
  }

  lemma {:induction false} NamesConcat(persons: seq<string>, s: seq<nat>, t: seq<nat>)
    requires InRange(s, |persons|) && InRange(t, |persons|)
    ensures InRange(s + t, |persons|)
    ensures Names(persons, s + t) == Names(persons, s) + Names(persons, t)
  {
    assert InRange(s + t, |persons|) by {
      forall k | 0 <= k < |s + t| ensures (s + t)[k] < |persons| {
        if k >= |s| {
          assert (s + t)[k] == t[k - |s|];
        }
      }
    }
  }

  /** Naming commutes with flattening. */
  lemma {:induction false} FlattenNames(persons: seq<string>, gs: seq<seq<nat>>)
    requires GroupsInRange(gs, |persons|)
    ensures InRange(Flatten(gs), |persons|)
    ensures Flatten(NameGroups(persons, gs)) == Names(persons, Flatten(gs))
  {
    if gs != [] {
      FlattenNames(persons, gs[1..]);
      NamesConcat(persons, gs[0], Flatten(gs[1..]));
      assert NameGroups(persons, gs)[1..] == NameGroups(persons, gs[1..]);
    }
  }

  /** Naming two rearrangements of the same indices gives rearrangements of the same names. */
  lemma {:induction false} NamesPermutation(persons: seq<string>, s: seq<nat>, t: seq<nat>)
    requires InRange(s, |persons|) && InRange(t, |persons|) && multiset(s) == multiset(t)
    ensures multiset(Names(persons, s)) == multiset(Names(persons, t))
    decreases |s|
  {
    if s != [] {
      var x := s[0];
      assert x in multiset(t);
      var j :| 0 <= j < |t| && t[j] == x;
      MultisetRemove(s, t, j);
      NamesRemove(persons, s, 0);
      NamesRemove(persons, t, j);
      assert s[..0] + s[1..] == s[1..];
      NamesPermutation(persons, s[1..], t[..j] + t[j + 1..]);
    }
  }

  /** Taking the `j`-th index out takes its name out of the names. */
  lemma {:induction false} NamesRemove(persons: seq<string>, t: seq<nat>, j: nat)
    requires InRange(t, |persons|) && j < |t|
    ensures InRange(t[..j] + t[j + 1..], |persons|)
    ensures multiset(Names(persons, t)) == multiset{persons[t[j]]} + multiset(Names(persons, t[..j] + t[j + 1..]))
  {
    var a, b := t[..j], t[j + 1..];
    assert t == a + [t[j]] + b;
    assert InRange(a, |persons|) && InRange(b, |persons|);
    NamesConcat(persons, a, b);
    NamesConcat(persons, a, [t[j]]);
    NamesConcat(persons, a + [t[j]], b);
    var na, nb, p := Names(persons, a), Names(persons, b), persons[t[j]];
    assert Names(persons, t) == na + [p] + nb;
    assert multiset(na + [p] + nb) == multiset{p} + multiset(na + nb);
  }

  /** Removing the same element from two rearrangements leaves rearrangements. */
  lemma {:induction false} MultisetRemove<T>(s: seq<T>, t: seq<T>, j: nat)
    requires multiset(s) == multiset(t) && s != [] && j < |t| && t[j] == s[0]
    ensures multiset(s[1..]) == multiset(t[..j] + t[j + 1..])
  {
    assert t == t[..j] + [t[j]] + t[j + 1..];
    assert s == [s[0]] + s[1..];
    var t' := t[..j] + t[j + 1..];
    assert multiset(t) == multiset(t') + multiset{s[0]};
    assert multiset(s) == multiset(s[1..]) + multiset{s[0]};
    forall y ensures multiset(s[1..])[y] == multiset(t')[y] {
      assert multiset(s)[y] == multiset(t)[y];
    }
  }

  /** Naming the groups of a partition of the roster lists every roster entry exactly as
      often as it occurs in the roster. */
  lemma {:induction false} PartitionNames(persons: seq<string>, gs: seq<seq<nat>>)
    requires GroupsInRange(gs, |persons|)
    ensures IsPartition(gs, |persons|) ==>
              multiset(Flatten(NameGroups(persons, gs))) == multiset(persons)
  {
    if IsPartition(gs, |persons|) {
      var n := |persons|;
      FlattenNames(persons, gs);
      assert InRange(Range(n), n);
      NamesPermutation(persons, Flatten(gs), Range(n));
      assert Names(persons, Range(n)) == persons;
    }
  }

  // ---------------------------------------------------------------------------
  // Decimal numerals

  predicate IsDigit(c: char) {
    '0' <= c <= '9'
  }

  predicate IsDigits(s: string) {
    forall i :: 0 <= i < |s| ==> IsDigit(s[i])
  }

  /** The decimal numeral of `n` that a template literal prints for an integer. */
  function NatToString(n: nat): (s: string)
    ensures |s| >= 1 && IsDigits(s)
    ensures s[0] == '0' ==> n == 0
  {
    if n < 10 then [('0' as int + n) as char]
    else NatToString(n / 10) + [('0' as int + n % 10) as char]
  }

  function ParseNat(s: string): nat
    requires IsDigits(s)
  {
    if s == [] then 0 else ParseNat(s[..|s| - 1]) * 10 + (s[|s| - 1] as int - '0' as int)
  }

  /** Reading the numeral back gives the number. */
  lemma {:induction false} NatToStringRoundTrip(n: nat)
    ensures ParseNat(NatToString(n)) == n
  {
    if n >= 10 {
      NatToStringRoundTrip(n / 10);
      var s := NatToString(n);
      assert s[..|s| - 1] == NatToString(n / 10);
    }
  }

  // ---------------------------------------------------------------------------
  // Joining and splitting

  /** `parts.join(sep)`: the parts with `sep` between neighbours; the empty list joins to "". */
  function Join(parts: seq<string>, sep: string): string {
    if |parts| == 0 then ""
    else if |parts| == 1 then parts[0]
    else parts[0] + sep + Join(parts[1..], sep)
  }

  /** The pieces of `s` between occurrences of `c`; always at least one piece. */
  function Split(s: string, c: char): (r: seq<string>)
    ensures |r| >= 1
  {
    if s == [] then [""]
    else
      var tail := Split(s[1..], c);
      if s[0] == c then [""] + tail else [[s[0]] + tail[0]] + tail[1..]
  }

  /** A prefix without `c` belongs to the first piece. */
  lemma {:induction false} SplitPrefix(p: string, rest: string, c: char)
    requires c !in p
    ensures Split(p + rest, c) == [p + Split(rest, c)[0]] + Split(rest, c)[1..]
  {
    if p != [] {
      SplitPrefix(p[1..], rest, c);
      assert (p + rest)[1..] == p[1..] + rest;
      assert [p[0]] + (p[1..] + Split(rest, c)[0]) == p + Split(rest, c)[0];
    } else {
      var r := Split(rest, c);
      assert p + rest == rest && p + r[0] == r[0];
      assert r == [r[0]] + r[1..];
    }
  }

  /** Splitting at a character loses nothing: joining the pieces with it gives the text back. */
  lemma {:induction false} JoinSplit(s: string, c: char)
    ensures Join(Split(s, c), [c]) == s
  {
    if s != [] {
      var tail := Split(s[1..], c);
      JoinSplit(s[1..], c);
      if s[0] == c {
        assert Join([""] + tail, [c]) == "" + [c] + Join(tail, [c]);
        assert s == [c] + s[1..];
      } else if |tail| == 1 {
        assert s == [s[0]] + tail[0];
      } else {
        var first := [[s[0]] + tail[0]] + tail[1..];
        assert first[1..] == tail[1..];
        assert Join(tail, [c]) == tail[0] + [c] + Join(tail[1..], [c]);
        assert s == [s[0]] + s[1..];
      }
    }
  }

  /** Joining with a one-character separator that no part contains, then splitting at it,
      gives the parts back. */
  lemma {:induction false} SplitJoin(parts: seq<string>, c: char)
    requires |parts| >= 1
    requires forall i :: 0 <= i < |parts| ==> c !in parts[i]
    ensures Split(Join(parts, [c]), c) == parts
  {
    if |parts| == 1 {
      SplitPrefix(parts[0], "", c);
      assert parts[0] + "" == parts[0];
    } else {
      var rest := Join(parts[1..], [c]);
      SplitJoin(parts[1..], c);
      assert parts[0] + [c] + rest == parts[0] + ([c] + rest);
      SplitPrefix(parts[0], [c] + rest, c);
      assert ([c] + rest)[1..] == rest;
      assert parts[0] + "" == parts[0];
    }
  }

  lemma {:induction false} JoinAvoids(parts: seq<string>, sep: string, c: char)
    requires c !in sep
    requires forall i :: 0 <= i < |parts| ==> c !in parts[i]
    ensures c !in Join(parts, sep)
  {
    if |parts| > 1 {
      JoinAvoids(parts[1..], sep, c);
    }
  }

  /** `xs` with a space in front of each element. */
  function Spaced(xs: seq<string>): (r: seq<string>)
    ensures |r| == |xs|
    ensures forall i :: 0 <= i < |xs| ==> r[i] == " " + xs[i]
  {
    seq(|xs|, i requires 0 <= i < |xs| => " " + xs[i])
  }

  /** A member list joined with ", " splits at the commas into the first name and the
      other names, each behind its space, when no name contains a comma. */
  lemma {:induction false} SplitMembers(names: seq<string>)
    requires |names| >= 1
    requires forall i :: 0 <= i < |names| ==> ',' !in names[i]
    ensures Split(Join(names, ", "), ',') == [names[0]] + Spaced(names[1..])
  {
    if |names| == 1 {
      SplitPrefix(names[0], "", ',');
      assert names[0] + "" == names[0];
    } else {
      var rest := names[1..];
      var tail := Join(rest, ", ");
      SplitMembers(rest);
      SplitAfterComma(names[0], tail);
      SpacedStep(rest, Split(tail, ','));
    }
  }

  /** Putting the space back on the first piece of the tail's split gives the spaced
      names. */
  lemma {:induction false} SpacedStep(rest: seq<string>, t: seq<string>)
    requires |rest| >= 1 && |t| >= 1
    requires t == [rest[0]] + Spaced(rest[1..])
    ensures [" " + t[0]] + t[1..] == Spaced(rest)
  {
    assert t[1..] == Spaced(rest[1..]);
  }

  /** Splitting a comma-free first name followed by ", " and a tail: the first name is a
      piece, and the tail's first piece gains the space. */
  lemma {:induction false} SplitAfterComma(p: string, tail: string)
    requires ',' !in p
    ensures Split(p + ", " + tail, ',') == [p] + ([" " + Split(tail, ',')[0]] + Split(tail, ',')[1..])
  {
    var t := Split(tail, ',');
    SplitPrefix(" ", tail, ',');
    var after := ", " + tail;
    assert after[0] == ',' && after[1..] == " " + tail;
    assert Split(after, ',') == [""] + Split(" " + tail, ',');
    SplitPrefix(p, after, ',');
    assert p + "" == p;
    assert p + ", " + tail == p + after;
  }

  // ---------------------------------------------------------------------------
  // The report

  const GroupWord: string := "Group "

  /** The line for the group with index `g`: it is numbered `g + 1`. */
  function GroupLine(g: nat, members: seq<string>): string {
    GroupWord + NatToString(g + 1) + ": " + Join(members, ", ")
  }

  function Lines(names: seq<seq<string>>): (r: seq<string>)
    ensures |r| == |names|
    ensures forall g :: 0 <= g < |names| ==> r[g] == GroupLine(g, names[g])
  {
    seq(|names|, g requires 0 <= g < |names| => GroupLine(g, names[g]))
  }

  /** The whole report: one line per group, separated by newlines. */
  function Render(names: seq<seq<string>>): string {
    Join(Lines(names), "\n")
  }

  /** Index of the first `c` in `s`, or `|s|` when there is none. */
  function IndexOf(s: string, c: char): (i: nat)
    ensures i <= |s|
    ensures forall j :: 0 <= j < i ==> s[j] != c
    ensures i < |s| ==> s[i] == c
  {
    if s == [] then 0 else if s[0] == c then 0 else 1 + IndexOf(s[1..], c)
  }

  /** Reads one report line back into the group index and the member list text; the
      numeral must be written as `NatToString` writes it, without a leading zero. */
  function ParseLine(line: string): Option<(nat, string)> {
    if |line| < |GroupWord| || line[..|GroupWord|] != GroupWord then None
    else
      var body := line[|GroupWord|..];
      var i := IndexOf(body, ':');
      if i == 0 || i + 1 >= |body| || body[i + 1] != ' ' || !IsDigits(body[..i]) || body[0] == '0'
      then None
      else
        ParsePositive(body[..i]);
        Some((ParseNat(body[..i]) - 1, body[i + 2..]))
  }

  /** A numeral that does not start with '0' reads as a positive number. */
  lemma {:induction false} ParsePositive(s: string)
    requires |s| >= 1 && IsDigits(s) && s[0] != '0'
    ensures ParseNat(s) >= 1
  {
    if |s| > 1 {
      ParsePositive(s[..|s| - 1]);
    }
  }

  /** A numeral without a leading zero is the printed form of the number it reads as. */
  lemma {:induction false} ParseNatToString(s: string)
    requires |s| >= 1 && IsDigits(s) && s[0] != '0'
    ensures NatToString(ParseNat(s)) == s
  {
    if |s| > 1 {
      var p, d := s[..|s| - 1], s[|s| - 1];
      ParsePositive(p);
      ParseNatToString(p);
      var n := ParseNat(s);
      assert n == ParseNat(p) * 10 + (d as int - '0' as int);
      assert n / 10 == ParseNat(p) && n % 10 == d as int - '0' as int;
      assert s == p + [d];
    }
  }

  /** A line that reads back is exactly the line printed for what it reads back as. */
  lemma {:induction false} ParseLineExact(line: string)
    requires ParseLine(line).Some?
    ensures var (g, text) := ParseLine(line).value;
            line == GroupWord + NatToString(g + 1) + ": " + text
  {
    var body := line[|GroupWord|..];
    var i := IndexOf(body, ':');
    ParseNatToString(body[..i]);
    assert body == body[..i] + ": " + body[i + 2..];
    assert line == line[..|GroupWord|] + body;
  }

  /** Every group line reads back as its group index and its joined members. */
  lemma {:induction false} GroupLineRoundTrip(g: nat, members: seq<string>)
    ensures ParseLine(GroupLine(g, members)) == Some((g, Join(members, ", ")))
  {
    var num := NatToString(g + 1);
    var rest := Join(members, ", ");
    var line := GroupLine(g, members);
    assert line == GroupWord + (num + ": " + rest);
    var body := num + ": " + rest;
    assert line[..|GroupWord|] == GroupWord && line[|GroupWord|..] == body;
    assert body[|num|] == ':' && body[|num| + 1] == ' ';
    assert IndexOf(body, ':') == |num|;
    assert body[..|num|] == num && body[|num| + 2..] == rest;
    assert body[0] == num[0] != '0';
    NatToStringRoundTrip(g + 1);
  }

  predicate NoNewline(names: seq<seq<string>>) {
    forall g, k :: 0 <= g < |names| && 0 <= k < |names[g]| ==> '\n' !in names[g][k]
  }

  /** A report of at least one group, where no name contains a newline, splits at its
      newlines into exactly the group lines, in group order. */
  lemma {:induction false} RenderLines(names: seq<seq<string>>)
    requires |names| >= 1
    requires NoNewline(names)
    ensures Split(Render(names), '\n') == Lines(names)
  {
    var lines := Lines(names);
    forall g | 0 <= g < |lines| ensures '\n' !in lines[g] {
      JoinAvoids(names[g], ", ", '\n');
      var num := NatToString(g + 1);
      assert forall i :: 0 <= i < |num| ==> num[i] != '\n' by {
        forall i | 0 <= i < |num| ensures num[i] != '\n' {
          assert IsDigit(num[i]);
        }
      }
      assert lines[g] == GroupWord + num + ": " + Join(names[g], ", ");
    }
    SplitJoin(lines, '\n');
  }

  /** Split at its newlines, a report of at least one group has one line per group, and
      line `g` reads back as group index `g` with that group's names joined by ", ". */
  lemma {:induction false} RenderReadBack(names: seq<seq<string>>)
    ensures |names| >= 1 && NoNewline(names) ==>
              var lines := Split(Render(names), '\n');
              && |lines| == |names|
              && forall g :: 0 <= g < |names| ==> ParseLine(lines[g]) == Some((g, Join(names[g], ", ")))
  {
    if |names| >= 1 && NoNewline(names) {
      RenderLines(names);
      forall g | 0 <= g < |names| ensures ParseLine(Lines(names)[g]) == Some((g, Join(names[g], ", "))) {
        GroupLineRoundTrip(g, names[g]);
      }
    }
  }
}
