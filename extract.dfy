/** The event extractor of one tailing pipeline: strip an optional leading
    timestamp token, then capture the IP of the first
    `Connect (v<version>): A.B.C.D` announcement.

    The two regular expressions of the program are modelled by hand-written
    matchers (`StampEnd`, `MatchAt`) and, independently, by ghost predicates
    that describe the text each pattern matches (`IsStampToken`,
    `ConnectMatch`); the lemmas connect the two. */
module Extract {
  import opened Text

  // ---------------------------------------------------------------------
  // Timestamp token: `^[0-9:;\[\]]+ `
  // ---------------------------------------------------------------------

  /** `t` is a text the timestamp pattern matches: a non-empty run of
      timestamp characters followed by one space. */
  ghost predicate IsStampToken(t: string) {
    |t| >= 2 && t[|t| - 1] == ' ' && forall k | 0 <= k < |t| - 1 :: IsStampChar(t[k])
  }

  /** The end offset of the timestamp match at the start of `line` (the
      second index returned by the pattern's index search), if there is one. */
  function StampEnd(line: string): (r: Option<nat>)
    ensures r.Some? ==> r.value <= |line| && IsStampToken(line[..r.value])
  {
    var n := ClassRun(line, 0, StampChars);
    RunSpan(line, 0, StampChars);
    if 0 < n < |line| && line[n] == ' ' then Some(n + 1) else None
  }

  /** Every timestamp-shaped prefix is the one `StampEnd` finds. */
  lemma StampEndComplete(line: string, e: nat)
    requires e <= |line| && IsStampToken(line[..e])
    ensures StampEnd(line) == Some(e)
  {
    assert forall k | 0 <= k < e - 1 :: IsStampChar(line[k]) by {
      forall k | 0 <= k < e - 1 ensures IsStampChar(line[k]) {
        assert line[..e][k] == line[k];
      }
    }
    assert line[e - 1] == line[..e][e - 1];
    RunUnique(line, 0, StampChars, e - 1);
  }

  /** The space is not a timestamp character, so a line has at most one
      timestamp-shaped prefix. */
  lemma StampTokenUnique(line: string, e1: nat, e2: nat)
    requires e1 <= |line| && IsStampToken(line[..e1])
    requires e2 <= |line| && IsStampToken(line[..e2])
    ensures e1 == e2
  {
    StampEndComplete(line, e1);
    StampEndComplete(line, e2);
  }

  /** The text the connect pattern is searched in: the line after its
      timestamp token, or the whole line when it has none. */
  function StripTimestamp(line: string): (r: string)
    ensures |r| <= |line| && r == line[|line| - |r|..]
  {
    match StampEnd(line)
    case Some(e) => line[e..]
    case None => line
  }

  /** A line that starts with a timestamp token is searched after it. */
  lemma StripStamped(t: string, rest: string)
    requires IsStampToken(t)
    ensures StripTimestamp(t + rest) == rest
  {
    assert (t + rest)[..|t|] == t;
    StampEndComplete(t + rest, |t|);
    assert (t + rest)[|t|..] == rest;
  }

  /** A line without a timestamp token is searched whole. */
  lemma StripUnstamped(line: string)
    requires forall e | 0 <= e <= |line| :: !IsStampToken(line[..e])
    ensures StripTimestamp(line) == line
  {
  }

  // ---------------------------------------------------------------------
  // Connect announcement: `Connect \(v[0-9.]+\): ([0-9]+\.[0-9]+\.[0-9]+\.[0-9]+)`
  // ---------------------------------------------------------------------

  const ConnectHead: string := "Connect (v"
  const VersionClose: string := "): "

  /** What `[0-9.]+` matches. */
  predicate IsVersion(v: string) {
    |v| > 0 && AllIn(v, 0, |v|, VersionChars)
  }

  /** `s[p..e]` is four non-empty digit groups separated by dots at offsets
      `d1`, `d2` and `d3`, what `[0-9]+\.[0-9]+\.[0-9]+\.[0-9]+` matches. */
  ghost predicate QuadSpan(s: string, p: nat, d1: nat, d2: nat, d3: nat, e: nat) {
    && p < d1 && d1 + 1 < d2 && d2 + 1 < d3 && d3 + 1 < e <= |s|
    && s[d1] == '.' && s[d2] == '.' && s[d3] == '.'
    && AllIn(s, p, d1, Digits) && AllIn(s, d1 + 1, d2, Digits)
    && AllIn(s, d2 + 1, d3, Digits) && AllIn(s, d3 + 1, e, Digits)
  }

  /** The shape of capture group 1: four non-empty digit groups joined by
      dots. No group is range-checked. */
  ghost predicate IsDottedQuad(ip: string) {
    exists d1: nat, d2: nat, d3: nat :: QuadSpan(ip, 0, d1, d2, d3, |ip|)
  }

  /** Where the pieces of one match of the connect pattern lie: the `)` that
      closes the version, the three dots of the address, and the end. */
  datatype Pieces = Pieces(close: nat, dot1: nat, dot2: nat, dot3: nat, end: nat)

  /** The connect pattern matches `s[i..m.end]` with its pieces at `m`
      (the last group need not be the greedy one). */
  ghost predicate ConnectMatch(s: string, i: nat, m: Pieces) {
    && At(s, i, ConnectHead)
    && i + |ConnectHead| < m.close
    && AllIn(s, i + |ConnectHead|, m.close, VersionChars)
    && At(s, m.close, VersionClose)
    && QuadSpan(s, m.close + |VersionClose|, m.dot1, m.dot2, m.dot3, m.end)
  }

  /** Some match of the connect pattern starts at offset `i`. */
  ghost predicate ConnectAt(s: string, i: nat) {
    exists m :: ConnectMatch(s, i, m)
  }

  /** A match ending at `e` is greedy: no digit follows its last group. */
  ghost predicate GreedyEnd(s: string, e: nat) {
    e < |s| ==> !IsDigit(s[e])
  }

  /** The offsets of a capture group in the searched text. */
  datatype Capture = Capture(start: nat, end: nat)

  /** `c` is where capture group 1 of the greedy match starting at offset
      `i` lies. */
  ghost predicate Captures(s: string, i: nat, c: Capture) {
    && c.start <= c.end <= |s|
    && exists m ::
      && ConnectMatch(s, i, m)
      && GreedyEnd(s, m.end)
      && c == Capture(m.close + |VersionClose|, m.end)
  }

  /** `i` is the leftmost offset at which the connect pattern matches. */
  ghost predicate Leftmost(s: string, i: nat) {
    ConnectAt(s, i) && forall i' | 0 <= i' < i :: !ConnectAt(s, i')
  }

  /** The connect pattern matches somewhere in `s`. */
  ghost predicate HasConnect(s: string) {
    exists i: nat, m :: ConnectMatch(s, i, m)
  }

  // --- the matcher

  /** `[0-9]+\.` at offset `p`: the offset just after the dot. */
  function GroupDotEnd(s: string, p: nat): (r: Option<nat>)
    requires p <= |s|
    ensures r.Some? ==> p + 2 <= r.value <= |s| && s[r.value - 1] == '.'
  {
    var n := ClassRun(s, p, Digits);
    if n > 0 && p + n < |s| && s[p + n] == '.' then Some(p + n + 1) else None
  }

  /** `[0-9]+\.[0-9]+\.[0-9]+\.[0-9]+` at offset `p`, the last group greedy:
      the end offset of the address. */
  function QuadEnd(s: string, p: nat): (r: Option<nat>)
    requires p <= |s|
    ensures r.Some? ==> p <= r.value <= |s|
  {
    match GroupDotEnd(s, p)
    case None => None
    case Some(p2) =>
      match GroupDotEnd(s, p2)
      case None => None
      case Some(p3) =>
        match GroupDotEnd(s, p3)
        case None => None
        case Some(p4) =>
          var n := ClassRun(s, p4, Digits);
          if n == 0 then None else Some(p4 + n)
  }

  /** Where capture group 1 of the connect pattern matched at offset `i`
      lies, if the pattern matches there. */
  function MatchAt(s: string, i: nat): (r: Option<Capture>)
    requires i <= |s|
    ensures r.Some? ==> r.value.start <= r.value.end <= |s|
  {
    if !At(s, i, ConnectHead) then None
    else
      var j := i + |ConnectHead|;
      var n := ClassRun(s, j, VersionChars);
      var k := j + n;
      if n == 0 || !At(s, k, VersionClose) then None
      else
        var p := k + |VersionClose|;
        match QuadEnd(s, p)
        case None => None
        case Some(e) => Some(Capture(p, e))
  }

  // --- matcher against pattern

  /** A digit group followed by a dot at `d` is what `GroupDotEnd` steps over. */
  lemma GroupDotComplete(s: string, p: nat, d: nat)
    requires p < d < |s| && AllIn(s, p, d, Digits) && s[d] == '.'
    ensures GroupDotEnd(s, p) == Some(d + 1)
  {
    RunUnique(s, p, Digits, d - p);
  }

  /** The group `GroupDotEnd` steps over is made of digits. */
  lemma GroupDotSpan(s: string, p: nat)
    requires p <= |s| && GroupDotEnd(s, p).Some?
    ensures AllIn(s, p, GroupDotEnd(s, p).value - 1, Digits)
  {
    RunSpan(s, p, Digits);
  }

  /** `QuadEnd` once its three dotted groups and its last run are known. */
  lemma QuadEndSteps(s: string, p: nat, p2: nat, p3: nat, p4: nat, n: nat)
    requires p <= |s| && GroupDotEnd(s, p) == Some(p2)
    requires p2 <= |s| && GroupDotEnd(s, p2) == Some(p3)
    requires p3 <= |s| && GroupDotEnd(s, p3) == Some(p4)
    requires p4 <= |s| && ClassRun(s, p4, Digits) == n > 0
    ensures QuadEnd(s, p) == Some(p4 + n)
  {
  }

  /** The matcher finds an address wherever there is one, reaching at least
      its end, and ends exactly where a greedy address ends. */
  lemma QuadEndComplete(s: string, p: nat, d1: nat, d2: nat, d3: nat, e: nat)
    requires QuadSpan(s, p, d1, d2, d3, e)
    ensures QuadEnd(s, p).Some? && QuadEnd(s, p).value >= e
    ensures GreedyEnd(s, e) ==> QuadEnd(s, p) == Some(e)
  {
    GroupDotComplete(s, p, d1);
    GroupDotComplete(s, d1 + 1, d2);
    GroupDotComplete(s, d2 + 1, d3);
    RunCovers(s, d3 + 1, Digits, e - (d3 + 1));
    QuadEndSteps(s, p, d1 + 1, d2 + 1, d3 + 1, ClassRun(s, d3 + 1, Digits));
    if GreedyEnd(s, e) {
      RunUnique(s, d3 + 1, Digits, e - (d3 + 1));
    }
  }

  /** What `QuadEnd` steps over is a greedily ended address. */
  lemma QuadEndSound(s: string, p: nat) returns (d1: nat, d2: nat, d3: nat)
    requires p <= |s| && QuadEnd(s, p).Some?
    ensures QuadSpan(s, p, d1, d2, d3, QuadEnd(s, p).value)
    ensures GreedyEnd(s, QuadEnd(s, p).value)
  {
    var p2 := GroupDotEnd(s, p).value;
    var p3 := GroupDotEnd(s, p2).value;
    var p4 := GroupDotEnd(s, p3).value;
    GroupDotSpan(s, p);
    GroupDotSpan(s, p2);
    GroupDotSpan(s, p3);
    RunSpan(s, p4, Digits);
    d1, d2, d3 := p2 - 1, p3 - 1, p4 - 1;
  }

  /** `MatchAt` once the head, the version run, the close and the address
      are known. */
  lemma MatchAtSteps(s: string, i: nat, n: nat, e: nat)
    requires i <= |s| && At(s, i, ConnectHead)
    requires ClassRun(s, i + |ConnectHead|, VersionChars) == n > 0
    requires At(s, i + |ConnectHead| + n, VersionClose)
    requires QuadEnd(s, i + |ConnectHead| + n + |VersionClose|) == Some(e)
    ensures MatchAt(s, i) == Some(Capture(i + |ConnectHead| + n + |VersionClose|, e))
  {
  }

  /** What the matcher checked when it succeeds at offset `i`: the head,
      a non-empty version run closed by `): ` at `k`, and an address that
      `QuadEnd` steps over. */
  lemma MatchAtParts(s: string, i: nat) returns (k: nat)
    requires i <= |s| && MatchAt(s, i).Some?
    ensures At(s, i, ConnectHead) && i + |ConnectHead| < k
    ensures AllIn(s, i + |ConnectHead|, k, VersionChars) && At(s, k, VersionClose)
    ensures MatchAt(s, i).value.start == k + |VersionClose| <= |s|
    ensures QuadEnd(s, k + |VersionClose|) == Some(MatchAt(s, i).value.end)
  {
    var j := i + |ConnectHead|;
    k := j + ClassRun(s, j, VersionChars);
    RunSpan(s, j, VersionChars);
  }

  /** What the matcher captures is the address of a real match, greedily
      ended. */
  lemma MatchAtSound(s: string, i: nat)
    requires i <= |s| && MatchAt(s, i).Some?
    ensures Captures(s, i, MatchAt(s, i).value)
  {
    var c := MatchAt(s, i).value;
    var k := MatchAtParts(s, i);
    var d1, d2, d3 := QuadEndSound(s, c.start);
    var m := Pieces(k, d1, d2, d3, c.end);
    assert ConnectMatch(s, i, m);
    assert GreedyEnd(s, m.end) && c == Capture(m.close + |VersionClose|, m.end);
  }

  /** Every match of the pattern is found by the matcher, and a greedy
      match is captured exactly. */
  lemma MatchAtComplete(s: string, i: nat, m: Pieces)
    requires ConnectMatch(s, i, m)
    ensures MatchAt(s, i).Some?
    ensures GreedyEnd(s, m.end) ==> MatchAt(s, i) == Some(Capture(m.close + |VersionClose|, m.end))
  {
    var j := i + |ConnectHead|;
    var p := m.close + |VersionClose|;
    assert s[m.close + 0] == VersionClose[0];
    RunUnique(s, j, VersionChars, m.close - j);
    QuadEndComplete(s, p, m.dot1, m.dot2, m.dot3, m.end);
    MatchAtSteps(s, i, m.close - j, QuadEnd(s, p).value);
  }

  /** The leftmost offset at or after `from` where the matcher succeeds. */
  function FirstMatch(s: string, from: nat): (r: Option<nat>)
    requires from <= |s|
    ensures r.Some? ==> from <= r.value <= |s|
    decreases |s| - from
  {
    if MatchAt(s, from).Some? then Some(from)
    else if from == |s| then None
    else FirstMatch(s, from + 1)
  }

  /** Where the search stops, the matcher succeeds. */
  lemma {:induction false} FirstMatchFound(s: string, from: nat)
    requires from <= |s| && FirstMatch(s, from).Some?
    ensures MatchAt(s, FirstMatch(s, from).value).Some?
    decreases |s| - from
  {
    if MatchAt(s, from).None? {
      FirstMatchFound(s, from + 1);
    }
  }

  /** Before where the search stops, or anywhere if it finds nothing, the
      matcher fails. */
  lemma {:induction false} FirstMatchSkips(s: string, from: nat, i: nat)
    requires from <= i <= |s|
    requires FirstMatch(s, from).None? || i < FirstMatch(s, from).value
    ensures MatchAt(s, i).None?
    decreases i - from
  {
    if i > from {
      FirstMatchSkips(s, from + 1, i);
    }
  }

  /** The search stops at the first offset where the matcher succeeds. */
  lemma {:induction false} FirstMatchAt(s: string, from: nat, i: nat)
    requires from <= i <= |s| && MatchAt(s, i).Some?
    requires forall i' | from <= i' < i :: MatchAt(s, i').None?
    ensures FirstMatch(s, from) == Some(i)
    decreases i - from
  {
    if from < i {
      assert MatchAt(s, from).None?;
      FirstMatchAt(s, from + 1, i);
    }
  }

  /** Capture group 1 of the leftmost match of the connect pattern in `s`. */
  function FindConnect(s: string): (r: Option<string>)
  {
    match FirstMatch(s, 0)
    case None => None
    case Some(i) =>
      match MatchAt(s, i)
      case None => None
      case Some(c) => Some(s[c.start..c.end])
  }

  /** The matcher succeeds at an offset exactly when the pattern matches there. */
  lemma MatchAtIff(s: string, i: nat)
    requires i <= |s|
    ensures MatchAt(s, i).Some? <==> ConnectAt(s, i)
  {
    if MatchAt(s, i).Some? {
      MatchAtSound(s, i);
    }
    if ConnectAt(s, i) {
      var m :| ConnectMatch(s, i, m);
      MatchAtComplete(s, i, m);
    }
  }

  /** No IP is found exactly when the pattern matches nowhere. */
  lemma FindConnectNone(s: string)
    ensures FindConnect(s).None? <==> !HasConnect(s)
  {
    if HasConnect(s) {
      var i: nat, m :| ConnectMatch(s, i, m);
      MatchAtComplete(s, i, m);
      if FirstMatch(s, 0).None? {
        FirstMatchSkips(s, 0, i);
      }
      FirstMatchFound(s, 0);
    }
    if FindConnect(s).Some? {
      var i := FirstMatch(s, 0).value;
      FirstMatchFound(s, 0);
      MatchAtSound(s, i);
      var m :| ConnectMatch(s, i, m);
    }
  }

  /** Where the pattern matches greedily, the matcher captures the same. */
  lemma CapturesFound(s: string, i: nat, c: Capture)
    requires Captures(s, i, c)
    ensures MatchAt(s, i) == Some(c)
  {
    var m :| ConnectMatch(s, i, m) && GreedyEnd(s, m.end) && c == Capture(m.close + |VersionClose|, m.end);
    MatchAtComplete(s, i, m);
  }

  /** What is found is the greedy capture of the leftmost match. */
  lemma FindConnectFound(s: string)
    requires FindConnect(s).Some?
    ensures exists i: nat, c :: Leftmost(s, i) && Captures(s, i, c) && FindConnect(s).value == s[c.start..c.end]
  {
    var i := FirstMatch(s, 0).value;
    FirstMatchFound(s, 0);
    MatchAtSound(s, i);
    MatchAtIff(s, i);
    forall i' | 0 <= i' < i ensures !ConnectAt(s, i') {
      FirstMatchSkips(s, 0, i');
      MatchAtIff(s, i');
    }
    var c := MatchAt(s, i).value;
    assert Leftmost(s, i) && Captures(s, i, c) && FindConnect(s).value == s[c.start..c.end];
  }

  /** The greedy capture of the leftmost match is what is found. */
  lemma LeftmostFound(s: string, i: nat, c: Capture)
    requires Leftmost(s, i) && Captures(s, i, c)
    ensures FindConnect(s) == Some(s[c.start..c.end])
  {
    CapturesFound(s, i, c);
    forall i' | 0 <= i' < i ensures MatchAt(s, i').None? {
      MatchAtIff(s, i');
    }
    FirstMatchAt(s, 0, i);
  }

  /** The IP found is exactly the greedy capture of the leftmost match, and
      conversely. */
  lemma FindConnectLeftmost(s: string, ip: string)
    ensures FindConnect(s) == Some(ip) <==>
              exists i: nat, c :: Leftmost(s, i) && Captures(s, i, c) && ip == s[c.start..c.end]
  {
    if FindConnect(s) == Some(ip) {
      FindConnectFound(s);
    }
    if exists i: nat, c :: Leftmost(s, i) && Captures(s, i, c) && ip == s[c.start..c.end] {
      var i: nat, c :| Leftmost(s, i) && Captures(s, i, c) && ip == s[c.start..c.end];
      LeftmostFound(s, i, c);
    }
  }

  // --- the address as a string

  /** Four groups joined by dots. */
  function Quad(a: string, b: string, c: string, d: string): string {
    a + ("." + (b + ("." + (c + ("." + d)))))
  }

  /** The text of a connect announcement with version `v` and address `ip`. */
  function ConnectText(v: string, ip: string): string {
    ConnectHead + (v + (VersionClose + ip))
  }

  /** The character at offset `t` of a dotted quad. */
  lemma QuadChar(a: string, b: string, c: string, d: string, t: nat)
    requires t < |Quad(a, b, c, d)|
    ensures t < |a| ==> Quad(a, b, c, d)[t] == a[t]
    ensures t == |a| ==> Quad(a, b, c, d)[t] == '.'
    ensures |a| < t < |a| + 1 + |b| ==> Quad(a, b, c, d)[t] == b[t - |a| - 1]
    ensures t == |a| + 1 + |b| ==> Quad(a, b, c, d)[t] == '.'
    ensures |a| + 1 + |b| < t < |a| + |b| + |c| + 2 ==> Quad(a, b, c, d)[t] == c[t - |a| - |b| - 2]
    ensures t == |a| + |b| + |c| + 2 ==> Quad(a, b, c, d)[t] == '.'
    ensures |a| + |b| + |c| + 2 < t ==> Quad(a, b, c, d)[t] == d[t - |a| - |b| - |c| - 3]
  {
  }

  /** The pieces of a dotted quad occurring at offset `p`. */
  lemma QuadAt(s: string, p: nat, a: string, b: string, c: string, d: string)
    requires IsNumeral(a) && IsNumeral(b) && IsNumeral(c) && IsNumeral(d)
    requires At(s, p, Quad(a, b, c, d))
    ensures QuadSpan(s, p, p + |a|, p + |a| + 1 + |b|, p + |a| + |b| + |c| + 2, p + |Quad(a, b, c, d)|)
  {
    var q := Quad(a, b, c, d);
    forall k | p <= k < p + |q| ensures s[k] == q[k - p] {
      assert s[p + (k - p)] == q[k - p];
    }
    forall t | 0 <= t < |q| ensures (t == |a| || t == |a| + 1 + |b| || t == |a| + |b| + |c| + 2) <==> !IsDigit(q[t]) {
      QuadChar(a, b, c, d, t);
    }
  }

  /** Four numerals joined by dots are a dotted quad. */
  lemma QuadIsDottedQuad(a: string, b: string, c: string, d: string)
    requires IsNumeral(a) && IsNumeral(b) && IsNumeral(c) && IsNumeral(d)
    ensures IsDottedQuad(Quad(a, b, c, d))
  {
    var q := Quad(a, b, c, d);
    AtWhole(q);
    QuadAt(q, 0, a, b, c, d);
    assert QuadSpan(q, 0, |a|, |a| + 1 + |b|, |a| + |b| + |c| + 2, |q|);
  }

  /** Every dotted quad is four numerals joined by dots. */
  lemma DottedQuadIsQuad(ip: string)
    requires IsDottedQuad(ip)
    ensures exists a, b, c, d ::
      IsNumeral(a) && IsNumeral(b) && IsNumeral(c) && IsNumeral(d) && ip == Quad(a, b, c, d)
  {
    var d1: nat, d2: nat, d3: nat :| QuadSpan(ip, 0, d1, d2, d3, |ip|);
    SliceNumeral(ip, 0, d1);
    SliceNumeral(ip, d1 + 1, d2);
    SliceNumeral(ip, d2 + 1, d3);
    SliceNumeral(ip, d3 + 1, |ip|);
    QuadSplit(ip, d1, d2, d3);
    var a, b, c, d := ip[..d1], ip[d1 + 1..d2], ip[d2 + 1..d3], ip[d3 + 1..];
    assert IsNumeral(a) && IsNumeral(b) && IsNumeral(c) && IsNumeral(d) && ip == Quad(a, b, c, d);
  }

  /** A dotted quad is its four groups joined by its dots. */
  lemma QuadSplit(ip: string, d1: nat, d2: nat, d3: nat)
    requires d1 < d2 < d3 < |ip| && ip[d1] == '.' && ip[d2] == '.' && ip[d3] == '.'
    ensures ip == Quad(ip[..d1], ip[d1 + 1..d2], ip[d2 + 1..d3], ip[d3 + 1..])
  {
    var a, b, c, d := ip[..d1], ip[d1 + 1..d2], ip[d2 + 1..d3], ip[d3 + 1..];
    var q := Quad(a, b, c, d);
    forall t | 0 <= t < |ip| ensures ip[t] == q[t] {
      QuadChar(a, b, c, d, t);
    }
  }

  /** A non-empty stretch of digits, cut out, is a numeral. */
  lemma SliceNumeral(s: string, p: nat, e: nat)
    requires p < e <= |s| && AllIn(s, p, e, Digits)
    ensures IsNumeral(s[p..e])
  {
    assert forall t | 0 <= t < e - p :: s[p..e][t] == s[p + t];
  }

  /** The address is made of digits and dots only (so in particular it
      holds no newline). */
  lemma DottedQuadChars(ip: string)
    requires IsDottedQuad(ip)
    ensures AllIn(ip, 0, |ip|, VersionChars)
  {
  }

  /** A greedy capture has the shape of a dotted quad. */
  lemma CapturesShape(s: string, i: nat, c: Capture)
    requires Captures(s, i, c)
    ensures IsDottedQuad(s[c.start..c.end])
  {
    var m :| ConnectMatch(s, i, m) && GreedyEnd(s, m.end) && c == Capture(m.close + |VersionClose|, m.end);
    assert QuadSpan(s, c.start, m.dot1, m.dot2, m.dot3, c.end);
    SliceQuad(s, c.start, m.dot1, m.dot2, m.dot3, c.end);
  }

  /** What is found has the shape of a dotted quad. */
  lemma FindConnectShape(s: string)
    requires FindConnect(s).Some?
    ensures IsDottedQuad(FindConnect(s).value)
  {
    FindConnectFound(s);
    var i: nat, c :| Leftmost(s, i) && Captures(s, i, c) && FindConnect(s).value == s[c.start..c.end];
    CapturesShape(s, i, c);
  }

  /** An address cut out of its text is a dotted quad. */
  lemma SliceQuad(s: string, p: nat, d1: nat, d2: nat, d3: nat, e: nat)
    requires QuadSpan(s, p, d1, d2, d3, e)
    ensures IsDottedQuad(s[p..e])
  {
    var ip := s[p..e];
    assert forall t | 0 <= t < e - p :: ip[t] == s[p + t];
    assert QuadSpan(ip, 0, d1 - p, d2 - p, d3 - p, e - p);
  }

  /** The character at offset `t` of a connect announcement. */
  lemma ConnectChar(v: string, ip: string, t: nat)
    requires t < |ConnectText(v, ip)|
    ensures t < |ConnectHead| ==> ConnectText(v, ip)[t] == ConnectHead[t]
    ensures |ConnectHead| <= t < |ConnectHead| + |v| ==> ConnectText(v, ip)[t] == v[t - |ConnectHead|]
    ensures |ConnectHead| + |v| <= t < |ConnectHead| + |v| + |VersionClose| ==>
      ConnectText(v, ip)[t] == VersionClose[t - |ConnectHead| - |v|]
    ensures |ConnectHead| + |v| + |VersionClose| <= t ==>
      ConnectText(v, ip)[t] == ip[t - |ConnectHead| - |v| - |VersionClose|]
  {
  }

  /** The pieces of a connect announcement occurring at offset `i`. */
  lemma ConnectTextAt(s: string, i: nat, v: string, ip: string)
    requires At(s, i, ConnectText(v, ip))
    ensures At(s, i, ConnectHead)
    ensures At(s, i + |ConnectHead|, v)
    ensures At(s, i + |ConnectHead| + |v|, VersionClose)
    ensures At(s, i + |ConnectHead| + |v| + |VersionClose|, ip)
  {
    var w := ConnectText(v, ip);
    forall k | i <= k < i + |w| ensures s[k] == w[k - i] {
      assert s[i + (k - i)] == w[k - i];
    }
    forall t | 0 <= t < |ConnectHead| ensures s[i + t] == ConnectHead[t] {
      ConnectChar(v, ip, t);
    }
    var j := i + |ConnectHead|;
    forall t | 0 <= t < |v| ensures s[j + t] == v[t] {
      ConnectChar(v, ip, |ConnectHead| + t);
    }
    forall t | 0 <= t < |VersionClose| ensures s[j + |v| + t] == VersionClose[t] {
      ConnectChar(v, ip, |ConnectHead| + |v| + t);
    }
    forall t | 0 <= t < |ip| ensures s[j + |v| + |VersionClose| + t] == ip[t] {
      ConnectChar(v, ip, |ConnectHead| + |v| + |VersionClose| + t);
    }
  }

  /** A connect announcement with these pieces, wherever it occurs, is a
      match of the pattern. */
  lemma ConnectTextMatch(s: string, i: nat, v: string, a: string, b: string, c: string, d: string)
    requires IsVersion(v) && IsNumeral(a) && IsNumeral(b) && IsNumeral(c) && IsNumeral(d)
    requires At(s, i, ConnectText(v, Quad(a, b, c, d)))
    ensures ConnectMatch(s, i, Pieces(i + |ConnectHead| + |v|,
                                      i + |ConnectHead| + |v| + |VersionClose| + |a|,
                                      i + |ConnectHead| + |v| + |VersionClose| + |a| + 1 + |b|,
                                      i + |ConnectHead| + |v| + |VersionClose| + |a| + |b| + |c| + 2,
                                      i + |ConnectText(v, Quad(a, b, c, d))|))
  {
    ConnectTextAt(s, i, v, Quad(a, b, c, d));
    AtChars(s, i + |ConnectHead|, v, VersionChars);
    QuadAt(s, i + |ConnectHead| + |v| + |VersionClose|, a, b, c, d);
  }

  // ---------------------------------------------------------------------
  // The extractor
  // ---------------------------------------------------------------------

  /** The IP a log line announces, if any. */
  function ExtractIp(line: string): (r: Option<string>)
  {
    FindConnect(StripTimestamp(line))
  }

  /** The optional timestamp token in front of a text that does not
      start with a timestamp character is stripped, and only it. */
  lemma StripOptional(t: string, s: string)
    requires t == [] || IsStampToken(t)
    requires |s| > 0 && !IsStampChar(s[0])
    ensures StripTimestamp(t + s) == s
  {
    if t == [] {
      assert t + s == s;
      assert ClassRun(s, 0, StampChars) == 0;
    } else {
      StripStamped(t, s);
    }
  }

  /** The address of a connect announcement, cut back out. */
  lemma ConnectTextAddress(v: string, ip: string, rest: string)
    ensures |ConnectHead| + |v| + |VersionClose| <= |ConnectText(v, ip)| <= |ConnectText(v, ip) + rest|
    ensures (ConnectText(v, ip) + rest)[|ConnectHead| + |v| + |VersionClose|..|ConnectText(v, ip)|] == ip
  {
    var s := ConnectText(v, ip) + rest;
    var p := |ConnectHead| + |v| + |VersionClose|;
    forall t | 0 <= t < |ip| ensures s[p..|ConnectText(v, ip)|][t] == ip[t] {
      ConnectChar(v, ip, p + t);
    }
  }

  /** A connect announcement at offset 0 of `s` that no digit follows is
      the leftmost match, and its address is what is found. */
  lemma FindConnectAtStart(s: string, v: string, a: string, b: string, c: string, d: string)
    requires IsVersion(v) && IsNumeral(a) && IsNumeral(b) && IsNumeral(c) && IsNumeral(d)
    requires At(s, 0, ConnectText(v, Quad(a, b, c, d)))
    requires GreedyEnd(s, |ConnectText(v, Quad(a, b, c, d))|)
    ensures FindConnect(s) == Some(s[|ConnectHead| + |v| + |VersionClose|..|ConnectText(v, Quad(a, b, c, d))|])
  {
    ConnectTextMatch(s, 0, v, a, b, c, d);
    var e := |ConnectText(v, Quad(a, b, c, d))|;
    var p := |ConnectHead| + |v| + |VersionClose|;
    assert Captures(s, 0, Capture(p, e));
    LeftmostFound(s, 0, Capture(p, e));
  }

  /** A connect announcement at the start of a text whose remainder does
      not continue the last group is its leftmost match, captured exactly. */
  lemma FindConnectText(v: string, a: string, b: string, c: string, d: string, rest: string)
    requires IsVersion(v) && IsNumeral(a) && IsNumeral(b) && IsNumeral(c) && IsNumeral(d)
    requires rest == [] || !IsDigit(rest[0])
    ensures FindConnect(ConnectText(v, Quad(a, b, c, d)) + rest) == Some(Quad(a, b, c, d))
  {
    var body := ConnectText(v, Quad(a, b, c, d));
    var s := body + rest;
    AtAppend(body, rest);
    assert GreedyEnd(s, |body|) by {
      if |body| < |s| {
        assert s[|body|] == rest[0];
      }
    }
    FindConnectAtStart(s, v, a, b, c, d);
    ConnectTextAddress(v, Quad(a, b, c, d), rest);
  }

  /** A well-formed line `<timestamp> Connect (v<version>): A.B.C.D<noise>`,
      with or without the timestamp, yields exactly `A.B.C.D`, provided the
      noise does not continue the last group with more digits. */
  lemma ExtractWellFormed(t: string, v: string, a: string, b: string, c: string, d: string, rest: string)
    requires t == [] || IsStampToken(t)
    requires IsVersion(v) && IsNumeral(a) && IsNumeral(b) && IsNumeral(c) && IsNumeral(d)
    requires rest == [] || !IsDigit(rest[0])
    ensures ExtractIp(t + ConnectText(v, Quad(a, b, c, d)) + rest) == Some(Quad(a, b, c, d))
  {
    var s := ConnectText(v, Quad(a, b, c, d)) + rest;
    assert s[0] == 'C';
    StripOptional(t, s);
    assert t + ConnectText(v, Quad(a, b, c, d)) + rest == t + s;
    FindConnectText(v, a, b, c, d, rest);
  }

  /** An address in a suffix is one in the whole string. */
  lemma QuadSpanSuffix(line: string, k: nat, p: nat, d1: nat, d2: nat, d3: nat, e: nat)
    requires k <= |line| && QuadSpan(line[k..], p, d1, d2, d3, e)
    ensures QuadSpan(line, k + p, k + d1, k + d2, k + d3, k + e)
  {
    AllInSuffix(line, k, p, d1, Digits);
    AllInSuffix(line, k, d1 + 1, d2, Digits);
    AllInSuffix(line, k, d2 + 1, d3, Digits);
    AllInSuffix(line, k, d3 + 1, e, Digits);
    assert line[k..][d1] == line[k + d1] && line[k..][d2] == line[k + d2] && line[k..][d3] == line[k + d3];
  }

  /** A match in a suffix is one in the whole string, shifted. */
  lemma ConnectMatchSuffix(line: string, k: nat, i: nat, m: Pieces)
    requires k <= |line| && ConnectMatch(line[k..], i, m)
    ensures ConnectMatch(line, k + i, Pieces(k + m.close, k + m.dot1, k + m.dot2, k + m.dot3, k + m.end))
  {
    AtSuffix(line, k, i, ConnectHead);
    AllInSuffix(line, k, i + |ConnectHead|, m.close, VersionChars);
    AtSuffix(line, k, m.close, VersionClose);
    QuadSpanSuffix(line, k, m.close + |VersionClose|, m.dot1, m.dot2, m.dot3, m.end);
  }

  /** A match in the text after the timestamp is one in the whole line. */
  lemma HasConnectSuffix(line: string, k: nat)
    requires k <= |line|
    requires HasConnect(line[k..])
    ensures HasConnect(line)
  {
    var i: nat, m :| ConnectMatch(line[k..], i, m);
    ConnectMatchSuffix(line, k, i, m);
  }

  /** A line that holds no connect announcement anywhere yields no IP,
      with or without a timestamp. */
  lemma ExtractIgnores(line: string)
    requires !HasConnect(line)
    ensures ExtractIp(line).None?
  {
    var s := StripTimestamp(line);
    var k := |line| - |s|;
    assert s == line[k..];
    if HasConnect(s) {
      HasConnectSuffix(line, k);
    }
    FindConnectNone(s);
  }

  /** The extracted IP, when there is one, is a dotted quad found as the
      leftmost greedy match in the text after the timestamp. */
  lemma ExtractShape(line: string)
    requires ExtractIp(line).Some?
    ensures IsDottedQuad(ExtractIp(line).value)
    ensures exists i: nat, c :: && Leftmost(StripTimestamp(line), i) && Captures(StripTimestamp(line), i, c)
                               && ExtractIp(line).value == StripTimestamp(line)[c.start..c.end]
  {
    FindConnectShape(StripTimestamp(line));
    FindConnectFound(StripTimestamp(line));
  }
}
