/**
 * src/rules/generic.rs: the `// +#AIRULE: +(.+)` rule marker, the map from
 * line numbers to rules that `extract_rule_map` builds, and `RuleWithCode`,
 * a rule paired with a range of the file it applies to.
 */
module Rules {
  import opened Wrappers

  // ---------------------------------------------------------------------
  // `str::lines`: split after each '\n', drop the '\n' and then one '\r'
  // before it; a last line without '\n' is kept as it is.

  /** The number of characters from `i` up to the next '\n' or the end. */
  function NonNewlineRun(s: string, i: nat): (n: nat)
    requires i <= |s|
    ensures i + n <= |s|
    ensures forall j :: i <= j < i + n ==> s[j] != '\n'
    ensures i + n == |s| || s[i + n] == '\n'
    decreases |s| - i
  {
    if i == |s| || s[i] == '\n' then 0 else 1 + NonNewlineRun(s, i + 1)
  }

  /** Drops one final '\r', and nothing else. */
  function StripCR(line: string): (r: string)
    ensures r <= line
    ensures |line| > 0 && line[|line| - 1] == '\r' ==> line == r + "\r"
    ensures !(|line| > 0 && line[|line| - 1] == '\r') ==> r == line
  {
    if |line| > 0 && line[|line| - 1] == '\r' then line[..|line| - 1] else line
  }

  /** `content.lines()` */
  function SplitLines(s: string): (lines: seq<string>)
    ensures forall i :: 0 <= i < |lines| ==> '\n' !in lines[i]
    decreases |s|
  {
    if s == [] then []
    else
      var k := NonNewlineRun(s, 0);
      if k == |s| then
        [s]
      else
        assert forall c :: c in s[..k] ==> c != '\n';
        [StripCR(s[..k])] + SplitLines(s[k + 1..])
  }

  /** A line that `lines` gives back unchanged once it is followed by '\n'. */
  predicate CleanLine(l: string)
  {
    '\n' !in l && (l == [] || l[|l| - 1] != '\r')
  }

  /** The text made of the given lines, each followed by '\n'. */
  function Terminated(lines: seq<string>): string
  {
    if lines == [] then [] else lines[0] + "\n" + Terminated(lines[1..])
  }

  /** A clean line followed by '\n' is split off as it is. */
  lemma SplitClean(l: string, rest: string)
    requires CleanLine(l)
    ensures SplitLines(l + "\n" + rest) == [l] + SplitLines(rest)
  {
    var s := l + "\n" + rest;
    var k := NonNewlineRun(s, 0);
    assert s[|l|] == '\n';
    assert forall j :: 0 <= j < |l| ==> s[j] == l[j] && l[j] in l;
    assert k == |l|;
    assert s[..k] == l;
    assert s[k + 1..] == rest;
  }

  /** A line without '\n' followed by "\r\n" is split off without the '\r'. */
  lemma SplitCRLF(l: string, rest: string)
    requires '\n' !in l
    ensures SplitLines(l + "\r\n" + rest) == [l] + SplitLines(rest)
  {
    var s := l + "\r\n" + rest;
    var k := NonNewlineRun(s, 0);
    assert s[|l|] == '\r' && s[|l| + 1] == '\n';
    assert forall j :: 0 <= j < |l| ==> s[j] == l[j] && l[j] in l;
    assert k == |l| + 1;
    assert s[..k] == l + "\r";
    assert StripCR(s[..k]) == l;
    assert s[k + 1..] == rest;
  }

  /** Splitting a text made of clean '\n'-terminated lines gives back those
      lines. */
  lemma {:induction false} SplitTerminated(lines: seq<string>)
    requires forall i :: 0 <= i < |lines| ==> CleanLine(lines[i])
    ensures SplitLines(Terminated(lines)) == lines
  {
    if lines != [] {
      SplitClean(lines[0], Terminated(lines[1..]));
      assert forall i :: 0 <= i < |lines[1..]| ==> lines[1..][i] == lines[i + 1];
      SplitTerminated(lines[1..]);
    }
  }

  /** The same for the first `n` lines, whatever follows them. */
  lemma {:induction false} SplitTerminatedPrefix(lines: seq<string>, n: nat)
    requires n <= |lines| && forall i :: 0 <= i < n ==> CleanLine(lines[i])
    ensures n <= |SplitLines(Terminated(lines))|
    ensures forall i :: 0 <= i < n ==> SplitLines(Terminated(lines))[i] == lines[i]
  {
    if n > 0 {
      SplitClean(lines[0], Terminated(lines[1..]));
      assert forall i :: 0 <= i < |lines[1..]| ==> lines[1..][i] == lines[i + 1];
      SplitTerminatedPrefix(lines[1..], n - 1);
    }
  }

  /** The same for clean lines followed by any others. */
  lemma SplitTerminatedAppend(head: seq<string>, tail: seq<string>)
    requires forall i :: 0 <= i < |head| ==> CleanLine(head[i])
    ensures |head| <= |SplitLines(Terminated(head + tail))|
    ensures forall i :: 0 <= i < |head| ==> SplitLines(Terminated(head + tail))[i] == head[i]
  {
    SplitTerminatedPrefix(head + tail, |head|);
  }

  /** A '\r' is dropped only in front of '\n': a last line without '\n' is
      kept as it is, a final '\r' included. */
  lemma SplitKeepsFinalCR(l: string)
    requires l != [] && '\n' !in l
    ensures SplitLines(l) == [l]
  {
    NonNewlineBound(l, 0, l);
  }

  // ---------------------------------------------------------------------
  // The marker `// +#AIRULE: +(.+)`, applied with `captures` (leftmost
  // match; the quantifiers greedy; `.` is any character but '\n').

  const Marker: string := "#AIRULE:"

  /** The number of spaces starting at `i`. */
  function SpaceRun(s: string, i: nat): (n: nat)
    requires i <= |s|
    ensures i + n <= |s|
    ensures forall j :: i <= j < i + n ==> s[j] == ' '
    ensures i + n == |s| || s[i + n] != ' '
    decreases |s| - i
  {
    if i == |s| || s[i] != ' ' then 0 else 1 + SpaceRun(s, i + 1)
  }

  predicate IsSpaces(t: string)
  {
    forall j :: 0 <= j < |t| ==> t[j] == ' '
  }

  /** One way for the pattern to match at `p`: "//", `n1` spaces, the
      marker, `n2` spaces and the capture `d`, at least one non-'\n'
      character. This is the reference the matcher is proved against. */
  ghost predicate MarkerAt(s: string, p: nat, n1: nat, n2: nat, d: string)
  {
    var r := p + 2 + n1;
    var t := r + 8;
    var u := t + n2;
    1 <= n1 && 1 <= n2 && 1 <= |d| && u + |d| <= |s| &&
    s[p..p + 2] == "//" && IsSpaces(s[p + 2..r]) && s[r..t] == Marker &&
    IsSpaces(s[t..u]) && s[u..u + |d|] == d && '\n' !in d
  }

  /** The order in which the matcher prefers two ways of matching at the
      same position: more spaces before the capture, then a longer capture. */
  predicate Outranks(n2: nat, d: string, n2': nat, d': string)
  {
    n2' < n2 || (n2' == n2 && |d'| <= |d|)
  }

  /** The capture of the preferred match starting exactly at `p`, if any. */
  function MatchAt(s: string, p: nat): Option<string>
    requires p <= |s|
  {
    if p + 2 > |s| || s[p..p + 2] != "//" then None
    else
      var r := p + 2 + SpaceRun(s, p + 2);
      if r == p + 2 || r + 8 > |s| || s[r..r + 8] != Marker then None
      else CaptureAfter(s, r + 8)
  }

  /** The capture of ` +(.+)` matched from `t`, just after the marker. */
  function CaptureAfter(s: string, t: nat): Option<string>
    requires t <= |s|
  {
    var u := t + SpaceRun(s, t);
    if u == t then None
    else
      var k := NonNewlineRun(s, u);
      if k > 0 then Some(s[u..u + k])
      // all that follows the marker is spaces: the last one is the capture
      else if u - t >= 2 then Some(" ")
      else None
  }

  /** The number of spaces in front of the capture `CaptureAfter` picks. */
  function SpacesBefore(s: string, t: nat): nat
    requires t <= |s| && CaptureAfter(s, t).Some?
  {
    var u := t + SpaceRun(s, t);
    if NonNewlineRun(s, u) > 0 then u - t else u - t - 1
  }

  /** Where the capture `CaptureAfter` picks sits. */
  lemma CaptureAfterText(s: string, t: nat)
    requires t <= |s| && CaptureAfter(s, t).Some?
    ensures var n2 := SpacesBefore(s, t);
      var v := CaptureAfter(s, t).value;
      1 <= n2 <= SpaceRun(s, t) && 1 <= |v| && t + n2 + |v| <= |s| &&
      s[t + n2..t + n2 + |v|] == v && '\n' !in v
  {
    var u := t + SpaceRun(s, t);
    var v := CaptureAfter(s, t).value;
    if NonNewlineRun(s, u) > 0 {
      assert forall j :: 0 <= j < |v| ==> v[j] == s[u + j];
    } else {
      assert s[u - 1..u] == [s[u - 1]] == v;
    }
  }

  /** The capture of the leftmost match starting at `p` or later. */
  function FindFrom(s: string, p: nat): Option<string>
    requires p <= |s|
    decreases |s| - p
  {
    var m := MatchAt(s, p);
    if m.Some? || p == |s| then m else FindFrom(s, p + 1)
  }

  /** `AIRULE.captures(line)`, then `caps[1]` */
  function Captures(line: string): Option<string>
  {
    FindFrom(line, 0)
  }

  lemma SpaceRunForced(s: string, i: nat, n: nat)
    requires i + n < |s| && s[i + n] != ' ' && IsSpaces(s[i..i + n])
    ensures n == SpaceRun(s, i)
  {
    var m := SpaceRun(s, i);
    assert forall j :: i <= j < i + n ==> s[j] == s[i..i + n][j - i];
  }

  lemma SpaceRunBound(s: string, i: nat, n: nat)
    requires i + n <= |s| && IsSpaces(s[i..i + n])
    ensures n <= SpaceRun(s, i)
  {
    var m := SpaceRun(s, i);
    assert forall j :: i <= j < i + n ==> s[j] == s[i..i + n][j - i];
  }

  lemma NonNewlineBound(s: string, i: nat, d: string)
    requires i + |d| <= |s| && s[i..i + |d|] == d && '\n' !in d
    ensures |d| <= NonNewlineRun(s, i)
  {
    assert forall j :: 0 <= j < |d| ==> d[j] == s[i + j] && d[j] in d;
  }

  /** What any match at `p` pins down: the space run before the marker is
      the whole run, the one after it at most the whole run, and the capture
      at most the rest of the line. */
  predicate MarkerFacts(s: string, p: nat, n1: nat, n2: nat, d: string)
  {
    var r := p + 2 + n1;
    var t := r + 8;
    var u := t + n2;
    u + |d| <= |s| && s[p..p + 2] == "//" && 1 <= n1 == SpaceRun(s, p + 2) && s[r..t] == Marker &&
    1 <= n2 <= SpaceRun(s, t) && 1 <= |d| <= NonNewlineRun(s, u)
  }

  lemma MarkerShape(s: string, p: nat, n1: nat, n2: nat, d: string)
    ensures MarkerAt(s, p, n1, n2, d) ==> MarkerFacts(s, p, n1, n2, d)
  {
    if MarkerAt(s, p, n1, n2, d) {
      var r := p + 2 + n1;
      var t := r + 8;
      assert s[r..t][0] == '#';
      SpaceRunForced(s, p + 2, n1);
      SpaceRunBound(s, t, n2);
      NonNewlineBound(s, t + n2, d);
    }
  }

  /** The text from `p` is "//", the longest run of spaces (at least one),
      the marker, `n2` of the spaces after it and then `d`, one line long. */
  ghost predicate GreedyShape(s: string, p: nat, n2: nat, d: string)
  {
    p + 2 <= |s| && s[p..p + 2] == "//" &&
    var r := p + 2 + SpaceRun(s, p + 2);
    r > p + 2 && r + 8 <= |s| && s[r..r + 8] == Marker &&
    1 <= n2 <= SpaceRun(s, r + 8) && 1 <= |d| && r + 8 + n2 + |d| <= |s| &&
    s[r + 8 + n2..r + 8 + n2 + |d|] == d && '\n' !in d
  }

  lemma MarkerWitness(s: string, p: nat, n2: nat, d: string)
    requires GreedyShape(s, p, n2, d)
    ensures MarkerAt(s, p, SpaceRun(s, p + 2), n2, d)
  {
    var r := p + 2 + SpaceRun(s, p + 2);
    var t := r + 8;
    assert forall j :: p + 2 <= j < r ==> s[p + 2..r][j - (p + 2)] == s[j];
    assert forall j :: t <= j < t + n2 ==> s[t..t + n2][j - t] == s[j];
  }

  /** Where `MatchAt` gives nothing, the pattern cannot match at `p`. */
  lemma MatchAtNone(s: string, p: nat, n1: nat, n2: nat, d: string)
    requires p <= |s| && MatchAt(s, p).None?
    ensures !MarkerAt(s, p, n1, n2, d)
  {
    MarkerShape(s, p, n1, n2, d);
  }

  /** What `MatchAt` checks on its way to a capture. */
  lemma MatchAtSome(s: string, p: nat)
    requires p <= |s| && MatchAt(s, p).Some?
    ensures p + 2 <= |s| && s[p..p + 2] == "//"
    ensures var r := p + 2 + SpaceRun(s, p + 2);
      var t := r + 8;
      var u := t + SpaceRun(s, t);
      var k := NonNewlineRun(s, u);
      r > p + 2 && t <= |s| && s[r..t] == Marker && u > t &&
      (k > 0 ==> MatchAt(s, p).value == s[u..u + k]) &&
      (k == 0 ==> u - t >= 2 && MatchAt(s, p).value == " ")
  {
  }

  /** Where the capture `MatchAt` picks sits: after `MatchedSpaces` of the
      spaces that follow the marker. */
  lemma MatchedText(s: string, p: nat)
    requires p <= |s| && MatchAt(s, p).Some?
    ensures var t := p + 2 + SpaceRun(s, p + 2) + 8;
      var n2 := MatchedSpaces(s, p);
      var v := MatchAt(s, p).value;
      t <= |s| && 1 <= n2 <= SpaceRun(s, t) && 1 <= |v| && t + n2 + |v| <= |s| &&
      s[t + n2..t + n2 + |v|] == v && '\n' !in v
  {
    CaptureAfterText(s, p + 2 + SpaceRun(s, p + 2) + 8);
  }

  /** What `MatchAt` gives is a match at `p`. */
  lemma MatchAtWitness(s: string, p: nat)
    requires p <= |s| && MatchAt(s, p).Some?
    ensures MarkerAt(s, p, SpaceRun(s, p + 2), MatchedSpaces(s, p), MatchAt(s, p).value)
  {
    MatchAtShape(s, p);
    MarkerWitness(s, p, MatchedSpaces(s, p), MatchAt(s, p).value);
  }

  lemma MatchAtShape(s: string, p: nat)
    requires p <= |s| && MatchAt(s, p).Some?
    ensures GreedyShape(s, p, MatchedSpaces(s, p), MatchAt(s, p).value)
  {
    MatchAtSome(s, p);
    MatchedText(s, p);
  }

  /** ... and one preferred over every other match at `p`. */
  lemma MatchAtOutranks(s: string, p: nat, n1: nat, n2: nat, d: string)
    requires p <= |s| && MatchAt(s, p).Some? && MarkerAt(s, p, n1, n2, d)
    ensures Outranks(MatchedSpaces(s, p), MatchAt(s, p).value, n2, d)
  {
    MatchAtSome(s, p);
    MarkerShape(s, p, n1, n2, d);
    var t := p + 2 + SpaceRun(s, p + 2) + 8;
    var u := t + SpaceRun(s, t);
    if NonNewlineRun(s, u) == 0 {
      assert NonNewlineRun(s, u - 1) == 1;
    }
  }

  /** The number of spaces between the marker and the capture in the match
      `MatchAt` picks. */
  function MatchedSpaces(s: string, p: nat): nat
    requires p <= |s| && MatchAt(s, p).Some?
  {
    SpacesBefore(s, p + 2 + SpaceRun(s, p + 2) + 8)
  }

  /** `MatchAt` finds a match at `p` exactly when the pattern can match
      there, and then the one the matcher prefers over every other. */
  lemma MatchAtSpec(s: string, p: nat)
    requires p <= |s|
    ensures MatchAt(s, p).None? ==> forall n1: nat, n2: nat, d: string :: !MarkerAt(s, p, n1, n2, d)
    ensures MatchAt(s, p).Some? ==>
      exists n1: nat, n2: nat :: MarkerAt(s, p, n1, n2, MatchAt(s, p).value) &&
        forall n1': nat, n2': nat, d': string :: MarkerAt(s, p, n1', n2', d') ==> Outranks(n2, MatchAt(s, p).value, n2', d')
  {
    if MatchAt(s, p).None? {
      forall n1: nat, n2: nat, d: string ensures !MarkerAt(s, p, n1, n2, d) {
        MatchAtNone(s, p, n1, n2, d);
      }
    } else {
      var v := MatchAt(s, p).value;
      forall n1': nat, n2': nat, d': string | MarkerAt(s, p, n1', n2', d')
        ensures Outranks(MatchedSpaces(s, p), v, n2', d')
      {
        MatchAtOutranks(s, p, n1', n2', d');
      }
      MatchAtWitness(s, p);
    }
  }

  /** `FindFrom` gives nothing exactly when `MatchAt` fails at every
      position from `p` on. */
  lemma {:induction false} FindFromNone(s: string, p: nat)
    requires p <= |s|
    ensures FindFrom(s, p).None? <==> forall q :: p <= q <= |s| ==> MatchAt(s, q).None?
    decreases |s| - p
  {
    if MatchAt(s, p).None? && p < |s| {
      assert FindFrom(s, p) == FindFrom(s, p + 1);
      FindFromNone(s, p + 1);
    }
  }

  /** What `FindFrom` gives is the capture at the first position >= `p`
      where `MatchAt` succeeds. */
  lemma {:induction false} FindFromFirst(s: string, p: nat)
    requires p <= |s|
    ensures FindFrom(s, p).Some? ==>
      exists q :: p <= q <= |s| && MatchAt(s, q) == FindFrom(s, p) &&
        forall q' :: p <= q' < q ==> MatchAt(s, q').None?
    decreases |s| - p
  {
    var m := MatchAt(s, p);
    if m.Some? {
      assert FindFrom(s, p) == m;
    } else if p < |s| {
      assert FindFrom(s, p) == FindFrom(s, p + 1);
      FindFromFirst(s, p + 1);
      if FindFrom(s, p).Some? {
        var q :| p + 1 <= q <= |s| && MatchAt(s, q) == FindFrom(s, p + 1) &&
          forall q' :: p + 1 <= q' < q ==> MatchAt(s, q').None?;
        assert forall q' :: p <= q' < q ==> MatchAt(s, q').None?;
      }
    }
  }

  /** `FindFrom` gives the capture at the first position >= `p` where
      `MatchAt` succeeds, and nothing when there is no such position. */
  lemma FindFromSpec(s: string, p: nat)
    requires p <= |s|
    ensures FindFrom(s, p).None? <==> forall q :: p <= q <= |s| ==> MatchAt(s, q).None?
    ensures FindFrom(s, p).Some? ==>
      exists q :: p <= q <= |s| && MatchAt(s, q) == FindFrom(s, p) &&
        forall q' :: p <= q' < q ==> MatchAt(s, q').None?
  {
    FindFromNone(s, p);
    FindFromFirst(s, p);
  }

  /** What `captures` gives is the regex's leftmost-first answer: nothing
      exactly when the pattern matches nowhere in the line; otherwise the
      capture of a match at the leftmost position where one exists,
      preferred there over every other way of matching. */
  lemma CapturesSpec(line: string)
    ensures Captures(line).None? <==> forall p: nat, n1: nat, n2: nat, d: string :: !MarkerAt(line, p, n1, n2, d)
    ensures Captures(line).Some? ==>
      exists p: nat, n1: nat, n2: nat :: MarkerAt(line, p, n1, n2, Captures(line).value) &&
        forall p': nat, n1': nat, n2': nat, d': string :: MarkerAt(line, p', n1', n2', d') ==>
          p < p' || (p == p' && Outranks(n2, Captures(line).value, n2', d'))
  {
    FindFromSpec(line, 0);
    forall p: nat, n1: nat, n2: nat, d: string | MarkerAt(line, p, n1, n2, d)
      ensures p <= |line| && MatchAt(line, p).Some?
    {
      MatchAtSpec(line, p);
    }
    if Captures(line).Some? {
      var v := Captures(line).value;
      var q :| 0 <= q <= |line| && MatchAt(line, q) == Captures(line) &&
        forall q' :: 0 <= q' < q ==> MatchAt(line, q').None?;
      MatchAtSpec(line, q);
      var n1: nat, n2: nat :| MarkerAt(line, q, n1, n2, v) &&
        forall n1': nat, n2': nat, d': string :: MarkerAt(line, q, n1', n2', d') ==> Outranks(n2, v, n2', d');
      forall p': nat, n1': nat, n2': nat, d': string | MarkerAt(line, p', n1', n2', d')
        ensures q < p' || (q == p' && Outranks(n2, v, n2', d'))
      {
      }
    }
  }

  function Spaces(n: nat): (s: string)
    ensures |s| == n && IsSpaces(s)
  {
    if n == 0 then [] else " " + Spaces(n - 1)
  }

  /** The marker at `p`, one space on each side, followed by the rest of
      the line. */
  lemma MarkerPrefix(s: string, p: nat)
    requires p + 12 <= |s| && s[p..p + 12] == "// #AIRULE: "
    ensures s[p..p + 2] == "//" && s[p + 3..p + 11] == Marker
    ensures s[p + 2] == ' ' && s[p + 11] == ' ' && s[p + 3] == '#'
  {
    var head := s[p..p + 12];
    assert s[p..p + 2] == head[..2];
    var mid := s[p + 3..p + 11];
    assert forall j :: 0 <= j < 8 ==> mid[j] == head[j + 3];
    assert mid == head[3..][..8];
    assert s[p + 2] == head[2] && s[p + 11] == head[11] && s[p + 3] == head[3];
  }

  /** A description that a marker line followed by one space gives back
      whole: not empty, not starting with a space, on one line. */
  predicate PlainDescription(d: string)
  {
    d != [] && d[0] != ' ' && '\n' !in d
  }

  lemma {:induction false} PlainMatchAt(s: string, p: nat, d: string)
    requires p + 12 + |d| == |s| && s[p..p + 12] == "// #AIRULE: " && s[p + 12..] == d
    requires PlainDescription(d)
    ensures MatchAt(s, p) == Some(d)
  {
    MarkerPrefix(s, p);
    assert IsSpaces(s[p + 2..p + 3]);
    SpaceRunForced(s, p + 2, 1);
    var t := p + 11;
    assert IsSpaces(s[t..t + 1]) && s[t + 1] == d[0];
    SpaceRunForced(s, t, 1);
    var u := t + 1;
    NonNewlineBound(s, u, d);
    assert NonNewlineRun(s, u) == |d|;
    assert s[u..u + |d|] == d;
  }

  /** An indented marker comment: the description is everything after the
      spaces that follow the marker, trailing spaces included. */
  lemma MarkerLine(indent: nat, d: string)
    requires PlainDescription(d)
    ensures Captures(Spaces(indent) + "// #AIRULE: " + d) == Some(d)
  {
    var lit := "// #AIRULE: ";
    var s := Spaces(indent) + lit + d;
    assert forall j :: 0 <= j < 12 ==> s[indent + j] == lit[j];
    assert s[indent..indent + 12] == lit;
    assert s[indent + 12..] == d;
    PlainMatchAt(s, indent, d);
    LeadingSpacesSkipped(s, 0, indent);
  }

  /** The same for a marker at the start of the line. */
  lemma MarkerLineFlush(d: string)
    requires PlainDescription(d)
    ensures Captures("// #AIRULE: " + d) == Some(d)
  {
    assert Spaces(0) + "// #AIRULE: " + d == "// #AIRULE: " + d;
    MarkerLine(0, d);
  }

  /** No match starts inside a run of spaces. */
  lemma {:induction false} LeadingSpacesSkipped(s: string, p: nat, q: nat)
    requires p <= q <= |s|
    requires forall j :: p <= j < q ==> s[j] == ' '
    ensures FindFrom(s, p) == FindFrom(s, q)
    decreases q - p
  {
    if p < q {
      if p + 2 <= |s| {
        assert s[p..p + 2][0] == ' ';
      }
      assert MatchAt(s, p).None?;
      LeadingSpacesSkipped(s, p + 1, q);
    }
  }

  /** From `i` to the end of the line there are only spaces. */
  lemma {:induction false} SpaceRunToEnd(s: string, i: nat)
    requires i <= |s| && forall j :: i <= j < |s| ==> s[j] == ' '
    ensures SpaceRun(s, i) == |s| - i
    decreases |s| - i
  {
    if i < |s| {
      SpaceRunToEnd(s, i + 1);
    }
  }

  /** No match starts where no '/' follows. */
  lemma {:induction false} FindFromNoSlash(s: string, p: nat)
    requires p <= |s| && forall j :: p <= j < |s| ==> s[j] != '/'
    ensures FindFrom(s, p) == None
    decreases |s| - p
  {
    if p + 2 <= |s| {
      assert s[p..p + 2][0] == s[p];
    }
    assert MatchAt(s, p).None?;
    if p < |s| {
      FindFromNoSlash(s, p + 1);
    }
  }

  /** A marker at `p` followed by `n` spaces and nothing else: a match
      there is whatever follows the marker, and no '/' comes after. */
  lemma MarkerThenSpaces(s: string, p: nat, n: nat)
    requires n >= 1 && |s| == p + 11 + n && s[p..p + 11] == "// #AIRULE:"
    requires forall j :: p + 11 <= j < |s| ==> s[j] == ' '
    ensures MatchAt(s, p) == CaptureAfter(s, p + 11) && SpaceRun(s, p + 11) == n
    ensures forall j :: p + 1 < j < |s| ==> s[j] != '/'
  {
    assert s[p..p + 12] == "// #AIRULE: " by {
      assert s[p..p + 12] == s[p..p + 11] + [s[p + 11]];
    }
    MarkerPrefix(s, p);
    assert IsSpaces(s[p + 2..p + 3]);
    SpaceRunForced(s, p + 2, 1);
    SpaceRunToEnd(s, p + 11);
    forall j | p + 1 < j < p + 11
      ensures s[j] != '/'
    {
      assert s[j] == s[p..p + 11][j - p];
    }
  }

  /** The layout of an indented marker followed by `n` spaces. */
  lemma MarkerSpacesLayout(indent: nat, n: nat)
    ensures var s := Spaces(indent) + "// #AIRULE:" + Spaces(n);
      |s| == indent + 11 + n && s[indent..indent + 11] == "// #AIRULE:" &&
      (forall j :: 0 <= j < indent ==> s[j] == ' ') &&
      (forall j :: indent + 11 <= j < |s| ==> s[j] == ' ')
  {
    var s := Spaces(indent) + "// #AIRULE:" + Spaces(n);
    assert forall j :: 0 <= j < indent ==> s[j] == Spaces(indent)[j];
    assert forall j :: indent + 11 <= j < |s| ==> s[j] == Spaces(n)[j - indent - 11];
  }

  /** A marker at `p` followed by one space and nothing else: no match
      from `p` on. */
  lemma MarkerThenOneSpace(s: string, p: nat)
    requires |s| == p + 12 && s[p..p + 11] == "// #AIRULE:" && s[p + 11] == ' '
    ensures FindFrom(s, p) == None
  {
    MarkerThenSpaces(s, p, 1);
    assert NonNewlineRun(s, |s|) == 0;
    assert MatchAt(s, p).None?;
    assert MatchAt(s, p + 1).None? by {
      assert s[p + 1..p + 3][1] == s[p + 2];
    }
    assert FindFrom(s, p) == FindFrom(s, p + 2);
    FindFromNoSlash(s, p + 2);
  }

  /** A single space after the marker and nothing else gives no rule,
      whatever the indentation. */
  lemma MarkerNeedsDescription(indent: nat)
    ensures Captures(Spaces(indent) + "// #AIRULE:" + Spaces(1)) == None
  {
    var s := Spaces(indent) + "// #AIRULE:" + Spaces(1);
    MarkerSpacesLayout(indent, 1);
    MarkerThenOneSpace(s, indent);
    LeadingSpacesSkipped(s, 0, indent);
  }

  /** When two or more spaces and nothing else follow the marker, the last
      of them is the rule, whatever the indentation. */
  lemma MarkerAllSpaces(indent: nat, n: nat)
    requires n >= 2
    ensures Captures(Spaces(indent) + "// #AIRULE:" + Spaces(n)) == Some(" ")
  {
    var s := Spaces(indent) + "// #AIRULE:" + Spaces(n);
    MarkerSpacesLayout(indent, n);
    MarkerThenSpaces(s, indent, n);
    assert NonNewlineRun(s, |s|) == 0;
    assert MatchAt(s, indent) == Some(" ");
    LeadingSpacesSkipped(s, 0, indent);
  }

  // ---------------------------------------------------------------------
  // `extract_rule_map`

  datatype Rule = Rule(description: string)

  /** `Display for Rule` */
  function RuleText(rule: Rule): string
  {
    rule.description
  }

  /** The marker capture of every line, in line order. */
  function LineCaptures(lines: seq<string>): (caps: seq<Option<string>>)
    ensures |caps| == |lines| && forall i :: 0 <= i < |lines| ==> caps[i] == Captures(lines[i])
  {
    seq(|lines|, i requires 0 <= i < |lines| => Captures(lines[i]))
  }

  /** The `filter_map` step: a (line number of the next line, rule) pair for
      every line with a capture, in line order. */
  function RulePairs(caps: seq<Option<string>>): seq<(nat, Rule)>
  {
    if caps == [] then []
    else
      var i := |caps| - 1;
      RulePairs(caps[..i]) + (match caps[i] case Some(d) => [(i + 2, Rule(d))] case None => [])
  }

  /** `collect::<HashMap<_, _>>()`: later pairs overwrite earlier ones. */
  function Collect(pairs: seq<(nat, Rule)>): map<nat, Rule>
  {
    if pairs == [] then map[]
    else Collect(pairs[..|pairs| - 1])[pairs[|pairs| - 1].0 := pairs[|pairs| - 1].1]
  }

  /** `extract_rule_map(content)` */
  function ExtractRuleMap(content: string): map<nat, Rule>
  {
    Collect(RulePairs(LineCaptures(SplitLines(content))))
  }

  /** The 0-based indices of the lines that hold a marker. */
  ghost function MarkerLines(caps: seq<Option<string>>): set<nat>
  {
    set i: nat | i < |caps| && caps[i].Some?
  }

  /** `m` holds, under k, the rule captured on 0-based line k - 2, and a
      rule for every line with a capture. */
  ghost predicate RuleMapOf(m: map<nat, Rule>, caps: seq<Option<string>>)
  {
    (forall k :: k in m ==> 2 <= k < |caps| + 2 && caps[k - 2].Some? && RuleText(m[k]) == caps[k - 2].value) &&
    (forall i :: 0 <= i < |caps| && caps[i].Some? ==> i + 2 in m)
  }

  lemma MarkerLinesStep(caps: seq<Option<string>>)
    requires caps != []
    ensures var i := |caps| - 1;
      MarkerLines(caps) == MarkerLines(caps[..i]) + (if caps[i].Some? then {i} else {})
  {
    var i := |caps| - 1;
    var prefix := caps[..i];
    forall j: nat
      ensures j in MarkerLines(caps) <==> j in MarkerLines(prefix) + (if caps[i].Some? then {i} else {})
    {
      if j < i {
        assert caps[j] == prefix[j];
      }
    }
  }

  lemma CollectStep(before: seq<(nat, Rule)>, x: (nat, Rule))
    ensures Collect(before + [x]) == Collect(before)[x.0 := x.1]
  {
    assert (before + [x])[..|before|] == before;
  }

  lemma RulePairsStep(caps: seq<Option<string>>)
    requires caps != []
    ensures var i := |caps| - 1;
      Collect(RulePairs(caps)) ==
        if caps[i].Some? then Collect(RulePairs(caps[..i]))[i + 2 := Rule(caps[i].value)]
        else Collect(RulePairs(caps[..i]))
  {
    var i := |caps| - 1;
    if caps[i].Some? {
      assert RulePairs(caps) == RulePairs(caps[..i]) + [(i + 2, Rule(caps[i].value))];
      CollectStep(RulePairs(caps[..i]), (i + 2, Rule(caps[i].value)));
    } else {
      assert RulePairs(caps) == RulePairs(caps[..i]) + [];
      assert RulePairs(caps) == RulePairs(caps[..i]);
    }
  }

  lemma RuleMapStep(caps: seq<Option<string>>, m0: map<nat, Rule>, m: map<nat, Rule>)
    requires caps != []
    requires RuleMapOf(m0, caps[..|caps| - 1])
    requires var i := |caps| - 1;
      m == if caps[i].Some? then m0[i + 2 := Rule(caps[i].value)] else m0
    ensures RuleMapOf(m, caps)
    ensures |m| == |m0| + (if caps[|caps| - 1].Some? then 1 else 0)
  {
    var i := |caps| - 1;
    var prefix := caps[..i];
    assert i + 2 !in m0;
    forall k | k in m
      ensures 2 <= k < |caps| + 2 && caps[k - 2].Some? && RuleText(m[k]) == caps[k - 2].value
    {
      if k != i + 2 {
        assert k in m0 && m[k] == m0[k];
        assert caps[k - 2] == prefix[k - 2];
      }
    }
    forall j | 0 <= j < |caps| && caps[j].Some? ensures j + 2 in m {
      if j < i {
        assert caps[j] == prefix[j];
        assert j + 2 in m0;
      }
    }
  }

  /** The map built from the captures has the rule of line i under i + 2,
      for every line with a capture and nothing else, and no pair is
      overwritten: there are as many entries as lines with a capture. */
  lemma {:induction false} CaptureRuleMap(caps: seq<Option<string>>)
    ensures RuleMapOf(Collect(RulePairs(caps)), caps)
    ensures |Collect(RulePairs(caps))| == |MarkerLines(caps)|
    decreases |caps|
  {
    if caps == [] {
      assert MarkerLines(caps) == {};
    } else {
      var i := |caps| - 1;
      CaptureRuleMap(caps[..i]);
      RulePairsStep(caps);
      RuleMapStep(caps, Collect(RulePairs(caps[..i])), Collect(RulePairs(caps)));
      MarkerLinesStep(caps);
      assert i !in MarkerLines(caps[..i]);
    }
  }

  // `extract_rule_map(content)`: a rule is stored under k exactly when the
  // 0-based line k - 2 of `content` (the 1-based line k - 1) holds a
  // marker, and it reads as that marker's capture. No entry is overwritten:
  // there are as many entries as marker lines.

  /** The keys of the rule map: k exactly when line k - 2 has a capture. */
  lemma ExtractRuleMapKeys(content: string)
    ensures var lines := SplitLines(content);
      forall k :: k in ExtractRuleMap(content) <==> 2 <= k < |lines| + 2 && Captures(lines[k - 2]).Some?
  {
    var lines := SplitLines(content);
    var caps := LineCaptures(lines);
    var m := ExtractRuleMap(content);
    CaptureRuleMap(caps);
    forall k | 2 <= k < |lines| + 2 && Captures(lines[k - 2]).Some? ensures k in m {
      assert caps[k - 2].Some?;
      assert (k - 2) + 2 in m;
    }
  }

  /** The rules of the rule map: under k, the capture of line k - 2. */
  lemma ExtractRuleMapValues(content: string)
    ensures var lines := SplitLines(content);
      var m := ExtractRuleMap(content);
      forall k :: k in m ==>
        2 <= k < |lines| + 2 && Captures(lines[k - 2]).Some? && RuleText(m[k]) == Captures(lines[k - 2]).value
  {
    CaptureRuleMap(LineCaptures(SplitLines(content)));
  }

  /** No entry is overwritten: as many entries as lines with a capture. */
  lemma ExtractRuleMapSize(content: string)
    ensures var lines := SplitLines(content);
      |ExtractRuleMap(content)| == |set i: nat | i < |lines| && Captures(lines[i]).Some?|
  {
    var lines := SplitLines(content);
    var caps := LineCaptures(lines);
    CaptureRuleMap(caps);
    assert MarkerLines(caps) == set i: nat | i < |lines| && Captures(lines[i]).Some?;
  }

  /** A line made of the marker, one space and a description `d` gives the
      rule `d` for the line after it. */
  lemma RuleForMarkerLine(content: string, k: nat, d: string)
    requires k < |SplitLines(content)| && SplitLines(content)[k] == "// #AIRULE: " + d
    requires PlainDescription(d)
    ensures k + 2 in ExtractRuleMap(content) && RuleText(ExtractRuleMap(content)[k + 2]) == d
  {
    MarkerLineFlush(d);
    ExtractRuleMapKeys(content);
    ExtractRuleMapValues(content);
  }

  // ---------------------------------------------------------------------
  // `RuleWithCode`

  /** `Range<usize>`; an offset into the file's text. */
  datatype ByteRange = ByteRange(start: nat, end: nat)

  datatype RuleMetaData = RuleMetaData(codeType: string, itemName: string)

  datatype RuleWithCode = RuleWithCode(rule: string, fileContent: string, byteRange: ByteRange, meta: RuleMetaData)

  /** The range can be sliced: slicing outside it panics. */
  predicate RangeInBounds(r: RuleWithCode)
  {
    r.byteRange.start <= r.byteRange.end <= |r.fileContent|
  }

  /** `RuleWithCode::new` */
  function NewRuleWithCode(rule: string, fileContent: string, codeType: string, itemName: string,
                           byteRange: ByteRange): (r: RuleWithCode)
    ensures r.rule == rule && r.fileContent == fileContent && r.byteRange == byteRange
    ensures r.meta.codeType == codeType && r.meta.itemName == itemName
  {
    RuleWithCode(rule, fileContent, byteRange, RuleMetaData(codeType, itemName))
  }

  /** `get_code_block`: the text in the range, which together with the text
      before and after it makes up the whole file. */
  function GetCodeBlock(r: RuleWithCode): (code: string)
    requires RangeInBounds(r)
    ensures |code| == r.byteRange.end - r.byteRange.start
    ensures r.fileContent == r.fileContent[..r.byteRange.start] + code + r.fileContent[r.byteRange.end..]
  {
    r.fileContent[r.byteRange.start..r.byteRange.end]
  }

  const PromptHead: string := "\n        <rule>"
  const PromptMiddle: string := "<rule>\n        <code>"
  const PromptTail: string := "<code>\n        "

  /** `to_prompt` */
  function ToPrompt(r: RuleWithCode): string
    requires RangeInBounds(r)
  {
    PromptHead + r.rule + PromptMiddle + GetCodeBlock(r) + PromptTail
  }

  /** The first position >= `i` where `pattern` occurs in `s`. */
  predicate OccursAt(s: string, pattern: string, q: nat)
  {
    q + |pattern| <= |s| && s[q..q + |pattern|] == pattern
  }

  function FindSub(s: string, pattern: string, i: nat): (r: Option<nat>)
    requires i <= |s|
    ensures r.Some? ==> i <= r.value && OccursAt(s, pattern, r.value)
    decreases |s| - i
  {
    if i + |pattern| > |s| then None
    else if s[i..i + |pattern|] == pattern then Some(i)
    else FindSub(s, pattern, i + 1)
  }

  lemma {:induction false} FindSubFirst(s: string, pattern: string, i: nat, j: nat)
    requires i <= j && OccursAt(s, pattern, j)
    requires forall q :: i <= q < j ==> !OccursAt(s, pattern, q)
    ensures FindSub(s, pattern, i) == Some(j)
    decreases j - i
  {
    if i < j {
      FindSubFirst(s, pattern, i + 1, j);
    }
  }

  /** Reads a prompt back into its rule text and code block; the rule text
      ends at the first "<rule>" that opens the template's middle part. */
  function ParsePrompt(prompt: string): Option<(string, string)>
  {
    if |prompt| < |PromptHead| + |PromptTail| then None
    else if prompt[..|PromptHead|] != PromptHead || prompt[|prompt| - |PromptTail|..] != PromptTail then None
    else
      var body := prompt[|PromptHead|..|prompt| - |PromptTail|];
      match FindSub(body, PromptMiddle, 0)
      case Some(j) => Some((body[..j], body[j + |PromptMiddle|..]))
      case None => None
  }

  /** In `rule + PromptMiddle + code`, the middle part is first found right
      after a rule text without '<'. */
  lemma MiddleFoundAfterRule(rule: string, code: string)
    requires '<' !in rule
    ensures FindSub(rule + PromptMiddle + code, PromptMiddle, 0) == Some(|rule|)
  {
    var body := rule + PromptMiddle + code;
    var j := |rule|;
    assert body[j..j + |PromptMiddle|] == PromptMiddle;
    forall q | 0 <= q < j ensures !OccursAt(body, PromptMiddle, q) {
      assert body[q] == rule[q];
      assert rule[q] in rule;
      assert body[q] != PromptMiddle[0];
    }
    FindSubFirst(body, PromptMiddle, 0, j);
  }

  /** Reading back the template filled with `rule` and `code`. */
  lemma ParseFilledTemplate(rule: string, code: string)
    requires '<' !in rule
    ensures ParsePrompt(PromptHead + rule + PromptMiddle + code + PromptTail) == Some((rule, code))
  {
    var body := rule + PromptMiddle + code;
    var prompt := PromptHead + rule + PromptMiddle + code + PromptTail;
    assert prompt == PromptHead + body + PromptTail;
    assert prompt[..|PromptHead|] == PromptHead;
    assert prompt[|prompt| - |PromptTail|..] == PromptTail;
    assert prompt[|PromptHead|..|prompt| - |PromptTail|] == body;
    MiddleFoundAfterRule(rule, code);
    assert body[..|rule|] == rule;
    assert body[|rule| + |PromptMiddle|..] == code;
  }

  /** The prompt holds the rule text and the code block verbatim: they can
      be read back from it whenever the rule text has no '<'. */
  lemma PromptRoundTrip(r: RuleWithCode)
    requires RangeInBounds(r) && '<' !in r.rule
    ensures ParsePrompt(ToPrompt(r)) == Some((r.rule, GetCodeBlock(r)))
  {
    ParseFilledTemplate(r.rule, GetCodeBlock(r));
  }

  /** The closing tags repeat the opening ones, so without that condition the
      prompt can be ambiguous: two different rule/code pairs give one prompt. */
  lemma PromptAmbiguous()
    ensures var a := RuleWithCode("x", "<rule>\n        <code>y", ByteRange(0, 22), RuleMetaData("enum", "A"));
      var b := RuleWithCode("x<rule>\n        <code>", "y", ByteRange(0, 1), RuleMetaData("enum", "A"));
      RangeInBounds(a) && RangeInBounds(b) && a.rule != b.rule && ToPrompt(a) == ToPrompt(b)
  {
    var a := RuleWithCode("x", "<rule>\n        <code>y", ByteRange(0, 22), RuleMetaData("enum", "A"));
    var b := RuleWithCode("x<rule>\n        <code>", "y", ByteRange(0, 1), RuleMetaData("enum", "A"));
    assert GetCodeBlock(a) == PromptMiddle + "y";
    assert GetCodeBlock(b) == "y";
    assert b.rule == "x" + PromptMiddle;
  }
}
