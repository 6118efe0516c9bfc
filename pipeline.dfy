/** One tailing pipeline: every line is run through the extractor; an IP
    that is found is looked up with the reputation service, and when its
    score reaches the minimum score `addBan` is called for it.

    The reputation service and the faults of the banlist file are oracles
    indexed by the position of the line in the stream, so that each lookup
    and each `addBan` may behave differently. Scores and the minimum score
    are reals: only their order matters. */
module Pipeline {
  import opened Text
  import opened Extract
  import opened Banlist

  /** The answer of the reputation service for one IP: an error, or a
      score (its auxiliary metadata is not used). */
  datatype Reply = LookupError | Score(score: real)

  /** Everything the pipeline depends on but does not compute: the
      configured minimum score, the reputation service, and how the banlist
      file behaves during the `addBan` of the line with a given index. */
  datatype Env = Env(minScore: real, intel: (nat, string) -> Reply, faults: nat -> Fault)

  /** What became of one line (what the pipeline logs about it). */
  datatype Event =
    | Ignored
    | LookupFailed(ip: string)
    | BelowMin(ip: string, score: real)
    | BanAttempt(ip: string, status: Status)

  /** The ban decision: the pipeline skips a score below the minimum, so a
      score equal to the minimum qualifies. */
  function Qualifies(score: real, minScore: real): (q: bool)
    ensures q <==> score >= minScore
    ensures score == minScore ==> q
  {
    !(score < minScore)
  }

  /** The banlist file after one line and what became of the line. */
  datatype StepResult = StepResult(file: string, event: Event)

  /** One pass of the loop body for the line with index `idx`. */
  function Step(file: string, line: string, idx: nat, env: Env): (r: StepResult)
    // a line without an announcement is ignored: no lookup, no ban
    ensures r.event == Ignored <==> ExtractIp(line).None?
    // otherwise the event is about the IP that was extracted, a dotted quad
    ensures r.event != Ignored ==> ExtractIp(line) == Some(r.event.ip) && IsDottedQuad(r.event.ip)
    // a failing lookup and a score below the minimum are reported as such
    ensures r.event.LookupFailed? <==>
      ExtractIp(line).Some? && env.intel(idx, ExtractIp(line).value).LookupError?
    ensures r.event.BelowMin? ==>
      env.intel(idx, r.event.ip) == Score(r.event.score) && r.event.score < env.minScore
    // `addBan` is called exactly when the lookup succeeds with a qualifying score
    ensures r.event.BanAttempt? <==>
      && ExtractIp(line).Some?
      && env.intel(idx, ExtractIp(line).value).Score?
      && env.intel(idx, ExtractIp(line).value).score >= env.minScore
    // without a call the file is untouched; with one, it is what `addBan` leaves
    ensures !r.event.BanAttempt? ==> r.file == file
    ensures r.event.BanAttempt? ==>
      AddBanSpec(file, r.event.ip, env.faults(idx)) == Outcome(r.file, r.event.status)
    // the file only grows at its end
    ensures file <= r.file
  {
    match ExtractIp(line)
    case None => StepResult(file, Ignored)
    case Some(ip) =>
      ExtractShape(line);
      match env.intel(idx, ip)
      case LookupError => StepResult(file, LookupFailed(ip))
      case Score(score) =>
        if !Qualifies(score, env.minScore) then StepResult(file, BelowMin(ip, score))
        else
          var o := AddBanSpec(file, ip, env.faults(idx));
          AddBanAppends(file, ip, env.faults(idx));
          GrowsByPrefix(file, o.file, Record(ip));
          StepResult(o.file, BanAttempt(ip, o.status))
  }

  /** A file that became `file + w` still starts with `file`. */
  lemma GrowsByPrefix(file: string, after: string, record: string)
    requires exists w :: w <= record && after == file + w
    ensures file <= after
  {
    var w :| w <= record && after == file + w;
    assert after[..|file|] == file;
  }

  /** The banlist file after a run and the events of its lines, in order. */
  datatype Trace = Trace(file: string, events: seq<Event>)

  /** The pipeline over the finite stream `lines`, starting from the
      banlist file `file`: the lines are processed in order, each by `Step`
      on the file the earlier lines left. */
  function Run(file: string, lines: seq<string>, env: Env): (r: Trace)
    ensures |r.events| == |lines|
    ensures file <= r.file
    decreases |lines|
  {
    if |lines| == 0 then Trace(file, [])
    else
      var prev := Run(file, lines[..|lines| - 1], env);
      var step := Step(prev.file, lines[|lines| - 1], |lines| - 1, env);
      Trace(step.file, prev.events + [step.event])
  }

  /** `parseTail`: the loop over the lines of one followed log file, with
      the banlist file held by `store`. Returns what became of each line. */
  method ParseTail(store: Store, lines: seq<string>, env: Env) returns (events: seq<Event>)
    modifies store
    ensures Trace(store.contents, events) == Run(old(store.contents), lines, env)
  {
    events := [];
    for i := 0 to |lines|
      invariant Trace(store.contents, events) == Run(old(store.contents), lines[..i], env)
    {
      RunSnoc(old(store.contents), lines, i, env);
      var line := lines[i];
      var found := ExtractIp(line);
      if found.None? {
        assert Step(store.contents, line, i, env) == StepResult(store.contents, Ignored);
        events := events + [Ignored];
        continue;
      }
      var ip := found.value;
      var reply := env.intel(i, ip);
      if reply.LookupError? {
        assert Step(store.contents, line, i, env) == StepResult(store.contents, LookupFailed(ip));
        events := events + [LookupFailed(ip)];
        continue;
      }
      if reply.score < env.minScore {
        assert Step(store.contents, line, i, env) == StepResult(store.contents, BelowMin(ip, reply.score));
        events := events + [BelowMin(ip, reply.score)];
        continue;
      }
      ghost var before := store.contents;
      var status := store.AddBan(ip, env.faults(i));
      assert Step(before, line, i, env) == StepResult(store.contents, BanAttempt(ip, status));
      events := events + [BanAttempt(ip, status)];
    }
    assert lines[..|lines|] == lines;
  }

  /** The run over one more line is `Step` after the run over the others. */
  lemma RunSnoc(file: string, lines: seq<string>, i: nat, env: Env)
    requires i < |lines|
    ensures var prev := Run(file, lines[..i], env);
            var step := Step(prev.file, lines[i], i, env);
            Run(file, lines[..i + 1], env) == Trace(step.file, prev.events + [step.event])
  {
    assert lines[..i + 1][..i] == lines[..i];
  }

  // ---------------------------------------------------------------------
  // Properties of a run
  // ---------------------------------------------------------------------

  /** The run over the first `n` lines is the start of the run over all of
      them: later lines never change what happened to earlier ones. */
  lemma {:induction false} RunPrefix(file: string, lines: seq<string>, n: nat, env: Env)
    requires n <= |lines|
    ensures Run(file, lines[..n], env).events == Run(file, lines, env).events[..n]
    decreases |lines|
  {
    if n < |lines| {
      var shorter := lines[..|lines| - 1];
      assert shorter[..n] == lines[..n];
      RunPrefix(file, shorter, n, env);
    } else {
      assert lines[..n] == lines;
    }
  }

  /** What happened to line `i` is `Step` on the file the earlier lines left. */
  lemma RunEvent(file: string, lines: seq<string>, i: nat, env: Env)
    requires i < |lines|
    ensures Run(file, lines, env).events[i] ==
      Step(Run(file, lines[..i], env).file, lines[i], i, env).event
  {
    RunPrefix(file, lines, i + 1, env);
    RunSnoc(file, lines, i, env);
    var events := Run(file, lines[..i + 1], env).events;
    assert events[i] == Run(file, lines, env).events[i];
  }

  /** The lines of the banlist file survive a whole run unchanged and in
      order. */
  lemma RunKeepsLines(file: string, lines: seq<string>, env: Env)
    ensures Lines(file) <= Lines(Run(file, lines, env).file)
  {
    var after := Run(file, lines, env).file;
    var w := after[|file|..];
    assert after == file + w;
    LinesPrefix(file, w);
  }

  /** Line `i` qualifies for a ban: an IP is found, its lookup succeeds and
      its score reaches the minimum. */
  predicate Qualifying(line: string, i: nat, env: Env) {
    && ExtractIp(line).Some?
    && env.intel(i, ExtractIp(line).value).Score?
    && env.intel(i, ExtractIp(line).value).score >= env.minScore
  }

  /** A run in which no line qualifies leaves the banlist file as it was:
      ignored lines, failed lookups and low scores never reach the store. */
  lemma {:induction false} RunWithoutQualifying(file: string, lines: seq<string>, env: Env)
    requires forall i | 0 <= i < |lines| :: !Qualifying(lines[i], i, env)
    ensures Run(file, lines, env).file == file
    ensures forall i | 0 <= i < |lines| :: !Run(file, lines, env).events[i].BanAttempt?
    decreases |lines|
  {
    if |lines| > 0 {
      var shorter := lines[..|lines| - 1];
      assert forall i | 0 <= i < |shorter| :: shorter[i] == lines[i];
      RunWithoutQualifying(file, shorter, env);
    }
  }

  /** `addBan` is attempted for line `i` exactly when that line qualifies. */
  lemma RunBansIff(file: string, lines: seq<string>, i: nat, env: Env)
    requires i < |lines|
    ensures Run(file, lines, env).events[i].BanAttempt? <==> Qualifying(lines[i], i, env)
  {
    RunEvent(file, lines, i, env);
  }

  /** `addBan` is never interrupted by a failing write for the first `n`
      lines, so no partial record is left in the file. */
  predicate NoTornWrites(env: Env, n: nat) {
    forall i | 0 <= i < n :: !env.faults(i).WriteFails?
  }

  /** Without torn writes a banlist file that is empty or ends with a
      newline stays so. */
  lemma {:induction false} RunTerminated(file: string, lines: seq<string>, env: Env)
    requires Terminated(file) && NoTornWrites(env, |lines|)
    ensures Terminated(Run(file, lines, env).file)
    decreases |lines|
  {
    if |lines| > 0 {
      var n := |lines| - 1;
      RunTerminated(file, lines[..n], env);
      var prev := Run(file, lines[..n], env).file;
      var step := Step(prev, lines[n], n, env);
      if step.event.BanAttempt? {
        ExtractedOneLine(lines[n]);
        AddBanTerminated(prev, step.event.ip, env.faults(n));
      }
    }
  }

  /** One `addBan` whose write does not fail keeps a banlist file that is
      empty or ends with a newline so. */
  lemma AddBanTerminated(file: string, ip: string, fault: Fault)
    requires Terminated(file) && !fault.WriteFails?
    requires forall j | 0 <= j < |ip| :: ip[j] != '\n'
    ensures Terminated(AddBanSpec(file, ip, fault).file)
  {
    var o := AddBanSpec(file, ip, fault);
    if o.status in {Added, AlreadyListed} {
      AddBanLists(file, ip, fault);
    }
  }

  /** An extracted IP holds no newline. */
  lemma ExtractedOneLine(line: string)
    requires ExtractIp(line).Some?
    ensures forall j | 0 <= j < |ExtractIp(line).value| :: ExtractIp(line).value[j] != '\n'
  {
    ExtractShape(line);
    QuadOneLine(ExtractIp(line).value);
  }

  /** A dotted quad holds no newline. */
  lemma QuadOneLine(ip: string)
    requires IsDottedQuad(ip)
    ensures forall j | 0 <= j < |ip| :: ip[j] != '\n'
  {
    DottedQuadChars(ip);
    forall j | 0 <= j < |ip| ensures ip[j] != '\n' {
      assert InClass(VersionChars, ip[j]);
    }
  }

  /** Without torn writes, every IP whose `addBan` succeeded during the run
      (whether it added the record or found the IP listed) is listed in the
      banlist file at the end. */
  lemma {:induction false} RunListsBanned(file: string, lines: seq<string>, env: Env, i: nat)
    requires Terminated(file) && NoTornWrites(env, |lines|)
    requires i < |lines|
    requires Run(file, lines, env).events[i].BanAttempt?
    requires Run(file, lines, env).events[i].status in {Added, AlreadyListed}
    ensures Listed(Run(file, lines, env).file, Run(file, lines, env).events[i].ip)
    decreases |lines|
  {
    var n := |lines| - 1;
    var shorter := lines[..n];
    var prev := Run(file, shorter, env);
    var step := Step(prev.file, lines[n], n, env);
    var whole := Run(file, lines, env);
    assert whole.file == step.file && whole.events == prev.events + [step.event];
    if i < n {
      assert whole.events[i] == prev.events[i];
      RunListsBanned(file, shorter, env, i);
      var ip := prev.events[i].ip;
      if step.event.BanAttempt? {
        AddBanKeepsListed(prev.file, step.event.ip, env.faults(n), ip);
      }
    } else {
      assert whole.events[i] == step.event;
      RunTerminated(file, shorter, env);
      ExtractedOneLine(lines[n]);
      AddBanLists(prev.file, step.event.ip, env.faults(n));
    }
  }

  /** How many lines are exactly `r`. */
  function Copies(lines: seq<string>, r: string): nat {
    if |lines| == 0 then 0
    else (if lines[0] == r then 1 else 0) + Copies(lines[1..], r)
  }

  /** Copies are counted line by line. */
  lemma {:induction false} CopiesAppend(a: seq<string>, b: seq<string>, r: string)
    ensures Copies(a + b, r) == Copies(a, r) + Copies(b, r)
  {
    if |a| > 0 {
      assert (a + b)[1..] == a[1..] + b;
      CopiesAppend(a[1..], b, r);
    } else {
      assert a + b == b;
    }
  }

  /** Lines none of which starts with `ip` hold no record of `ip`. */
  lemma {:induction false} CopiesUnlisted(lines: seq<string>, ip: string)
    requires forall k | 0 <= k < |lines| :: !HasPrefix(lines[k], ip)
    ensures Copies(lines, Record(ip)) == 0
  {
    if |lines| > 0 {
      assert HasPrefix(Record(ip), ip) by {
        assert Record(ip)[..|ip|] == ip;
      }
      CopiesUnlisted(lines[1..], ip);
    }
  }

  /** Different IPs have different records. */
  lemma RecordInjective(ip: string, other: string)
    requires Record(ip) == Record(other)
    ensures ip == other
  {
    assert |ip| == |other|;
    assert Record(ip)[..|ip|] == ip;
    assert Record(other)[..|other|] == other;
  }

  /** One `addBan` on a terminated file never writes a second record of
      `ip`, and keeps the file terminated, when its write does not fail. */
  lemma AddBanCopies(file: string, added: string, fault: Fault, ip: string)
    requires Terminated(file) && !fault.WriteFails?
    requires forall j | 0 <= j < |added| :: added[j] != '\n'
    requires Copies(Lines(file), Record(ip)) <= 1
    ensures Terminated(AddBanSpec(file, added, fault).file)
    ensures Copies(Lines(AddBanSpec(file, added, fault).file), Record(ip)) <= 1
  {
    var o := AddBanSpec(file, added, fault);
    if o.status == Added {
      AddBanLists(file, added, fault);
      AddBanGuard(file, added, fault);
      RecordLines(added);
      LinesAppend(file, Record(added));
      CopiesAppend(Lines(file), [Record(added)], Record(ip));
      assert [Record(added)][1..] == [];
      if added == ip {
        ListedFirst(file, ip);
        CopiesUnlisted(Lines(file), ip);
      } else if Record(added) == Record(ip) {
        RecordInjective(added, ip);
      }
    } else if o.status == AlreadyListed {
      AddBanLists(file, added, fault);
    }
  }

  /** The banlist never holds two records of the same IP because of a
      run, as long as no write is torn: a record is only written when no
      line starts with its IP, and so no line is already that record. */
  lemma {:induction false} RunNoDuplicateRecord(file: string, lines: seq<string>, env: Env, ip: string)
    requires Terminated(file) && NoTornWrites(env, |lines|)
    requires Copies(Lines(file), Record(ip)) <= 1
    ensures Copies(Lines(Run(file, lines, env).file), Record(ip)) <= 1
    decreases |lines|
  {
    if |lines| > 0 {
      var n := |lines| - 1;
      RunNoDuplicateRecord(file, lines[..n], env, ip);
      RunTerminated(file, lines[..n], env);
      var prev := Run(file, lines[..n], env).file;
      var step := Step(prev, lines[n], n, env);
      if step.event.BanAttempt? {
        ExtractedOneLine(lines[n]);
        AddBanCopies(prev, step.event.ip, env.faults(n), ip);
      }
    }
  }

  /** A torn write can complete another IP's record: when the banlist
      holds the record of `[x] + rest`, a call for an unlisted `longer` that
      starts with `x` and fails after one character leaves `x` behind, and a
      call for an unlisted `rest` then appends its record after it, which
      makes a second copy of the record of `[x] + rest`. */
  lemma TornWriteCompletes(x: char, rest: string, longer: string)
    requires x != '\n' && forall j | 0 <= j < |rest| :: rest[j] != '\n'
    requires |longer| > 0 && longer[0] == x
    requires !HasPrefix(Record([x] + rest), longer) && !HasPrefix(Record([x] + rest), rest)
    ensures var first := Record([x] + rest);
            var torn := AddBanSpec(first, longer, WriteFails(1));
            var next := AddBanSpec(torn.file, rest, NoFault);
            && torn == Outcome(first + [x], Failed(Write))
            && next == Outcome(first + first, Added)
            && Copies(Lines(next.file), first) == 2
  {
    var ip := [x] + rest;
    OneLineJoin([x], rest);
    var r := Record(ip);
    RecordLines(ip);
    TornFirstCall(r, longer, x);
    OneLineListed(r, rest);
    UnterminatedTailIgnored(r, [x], rest);
    RecordCons(x, rest);
    AppendAssoc(r, [x], Record(rest));
    TwoCopies(r);
  }

  /** Why `RunListsBanned` and `AddBanCopies` start from a terminated
      banlist: on a file whose last line is unterminated, a call with no
      fault appends the record to that line, so it succeeds without
      listing the IP. */
  lemma UnterminatedStartUnlisted(tail: string, ip: string)
    requires |tail| > 0 && |ip| > 0 && tail[0] != ip[0]
    requires forall j | 0 <= j < |tail| :: tail[j] != '\n'
    requires forall j | 0 <= j < |ip| :: ip[j] != '\n'
    ensures AddBanSpec(tail, ip, NoFault) == Outcome(tail + Record(ip), Added)
    ensures !Listed(tail + Record(ip), ip)
  {
    LinesNone(tail);
    ListedFirst(tail, ip);
    AddBanNoFault(tail, ip);
    OneLineJoin(tail, ip);
    ConsFields(tail, ip, ":", BanMessage, "\n");
    RecordLines(tail + ip);
    OneLineListed(tail + Record(ip), ip);
    assert (tail + Record(ip))[0] == tail[0];
  }

  /** The banlist `x` and the IP `1.2.3.4`: the call reports the record
      added, yet no line of the new file starts with `1.2.3.4`. */
  lemma AddedButUnlisted()
    ensures AddBanSpec("x", "1.2.3.4", NoFault) == Outcome("x" + Record("1.2.3.4"), Added)
    ensures !Listed("x" + Record("1.2.3.4"), "1.2.3.4")
  {
    UnterminatedStartUnlisted("x", "1.2.3.4");
  }

  /** A banlist left unterminated by an earlier run can gain a second
      copy of a record from one call that does not fail: after the record
      of `10.0.0.5` and a stray `1`, adding `0.0.0.5` completes it. */
  lemma UnterminatedStartDuplicates()
    ensures var first := Record("10.0.0.5");
            var next := AddBanSpec(first + "1", "0.0.0.5", NoFault);
            && next == Outcome(first + first, Added)
            && Copies(Lines(next.file), first) == 2
  {
    assert "10.0.0.5" == ['1'] + "0.0.0.5";
    var r := Record("10.0.0.5");
    assert r[8] == ':' && r[0] == '1';
    TornWriteCompletes('1', "0.0.0.5", "10.0.0.50");
  }

  lemma OneLineJoin(tail: string, ip: string)
    requires forall j | 0 <= j < |tail| :: tail[j] != '\n'
    requires forall j | 0 <= j < |ip| :: ip[j] != '\n'
    ensures forall j | 0 <= j < |tail + ip| :: (tail + ip)[j] != '\n'
  {
    forall j | 0 <= j < |tail + ip| ensures (tail + ip)[j] != '\n' {
      if j >= |tail| {
        assert (tail + ip)[j] == ip[j - |tail|];
      }
    }
  }

  /** A call that fails after writing one character leaves the first
      character of the record. */
  lemma TornFirstCall(r: string, longer: string, x: char)
    requires Lines(r) == [r] && !HasPrefix(r, longer)
    requires |longer| > 0 && longer[0] == x
    ensures AddBanSpec(r, longer, WriteFails(1)) == Outcome(r + [x], Failed(Write))
  {
    OneLineListed(r, longer);
    ListedFirst(r, longer);
    assert Record(longer)[..1] == [x];
  }

  /** A file of one line lists exactly the prefixes of that line. */
  lemma OneLineListed(r: string, ip: string)
    requires Lines(r) == [r]
    ensures Listed(r, ip) <==> HasPrefix(r, ip)
  {
    if HasPrefix(r, ip) {
      assert HasPrefix(Lines(r)[0], ip);
    }
  }

  lemma RecordCons(x: char, rest: string)
    ensures Record([x] + rest) == [x] + Record(rest)
  {
    ConsFields([x], rest, ":", BanMessage, "\n");
  }

  lemma ConsFields(a: string, b: string, c: string, d: string, e: string)
    ensures a + b + c + d + e == a + (b + c + d + e)
  {
  }

  lemma AppendAssoc(a: string, b: string, c: string)
    ensures a + b + c == a + (b + c)
  {
  }

  /** A one-line file written twice holds two copies of its line. */
  lemma TwoCopies(r: string)
    requires Terminated(r) && Lines(r) == [r]
    ensures Copies(Lines(r + r), r) == 2
  {
    LinesAppend(r, r);
    CopiesAppend([r], [r], r);
    assert [r][1..] == [];
  }

  /** Why `RunNoDuplicateRecord` excludes torn writes: the banlist holds
      the record of `10.0.0.5`; adding `10.0.0.50` fails after writing its
      first character `1`, and adding `0.0.0.5` then completes that line
      into a second record of `10.0.0.5`. */
  lemma TornWriteDuplicates()
    ensures var first := Record("10.0.0.5");
            var torn := AddBanSpec(first, "10.0.0.50", WriteFails(1));
            var next := AddBanSpec(torn.file, "0.0.0.5", NoFault);
            && torn.status == Failed(Write)
            && next == Outcome(first + first, Added)
            && Copies(Lines(next.file), first) == 2
  {
    assert "10.0.0.5" == ['1'] + "0.0.0.5";
    var r := Record("10.0.0.5");
    assert r[8] == ':' && r[0] == '1';
    TornWriteCompletes('1', "0.0.0.5", "10.0.0.50");
  }

  // ---------------------------------------------------------------------
  // End-to-end scenarios
  // ---------------------------------------------------------------------

  const ScenarioLine: string := "12:34:56 Connect (v1.0): 10.0.0.5 extra"

  /** The scenario line is a timestamp token, an announcement of
      `10.0.0.5` and some noise. */
  lemma ScenarioLineParts()
    ensures ScenarioLine == "12:34:56 " + ConnectText("1.0", Quad("10", "0", "0", "5")) + " extra"
    ensures Quad("10", "0", "0", "5") == "10.0.0.5"
  {
  }

  /** The pieces of the scenario line have the shapes the patterns ask for. */
  lemma ScenarioPieces()
    ensures IsStampToken("12:34:56 ") && IsVersion("1.0")
    ensures IsNumeral("10") && IsNumeral("0") && IsNumeral("5")
  {
  }

  /** The announcement in the scenario line is found. */
  lemma ScenarioExtract()
    ensures ExtractIp(ScenarioLine) == Some("10.0.0.5")
  {
    ScenarioLineParts();
    ScenarioPieces();
    ExtractWellFormed("12:34:56 ", "1.0", "10", "0", "0", "5", " extra");
  }

  /** The reputation service of the scenarios: the same score for every IP. */
  function Fixed(score: real): (nat, string) -> Reply {
    (_, _) => Score(score)
  }

  /** Score 0.9 against minimum 0.5: the empty banlist gains the record of
      `10.0.0.5`. */
  lemma ScenarioBanned()
    ensures Run([], [ScenarioLine], Env(0.5, Fixed(0.9), _ => NoFault)).file == Record("10.0.0.5")
  {
    var env := Env(0.5, Fixed(0.9), _ => NoFault);
    ScenarioExtract();
    assert [ScenarioLine][..0] == [];
    assert Run([], [ScenarioLine], env).file == Step([], ScenarioLine, 0, env).file;
    assert Lines([]) == [] by {
      LinesFromEnd([]);
    }
    AddBanNoFault([], "10.0.0.5");
  }

  /** Score 0.2 against minimum 0.5: the banlist stays empty and the low
      score is reported. */
  lemma ScenarioBelowMin()
    ensures Run([], [ScenarioLine], Env(0.5, Fixed(0.2), _ => NoFault)) ==
      Trace([], [BelowMin("10.0.0.5", 0.2)])
  {
    ScenarioExtract();
    assert [ScenarioLine][..0] == [];
  }
}
