/** The banlist file and `addBan`: the file is scanned line by line for a
    line that starts with the IP, and the IP's record is appended when none
    does.

    The file is the string held by a `Store`. How the environment behaves
    during one call (whether opening, one of the reads or the write fails)
    is a `Fault` the caller passes in. */
module Banlist {
  import opened Text

  /** The fixed text after `<ip>:` in every record, "You have been banned
      on suspicion of proxy use.  If you believe this is in error, please
      contact the administrators." (two spaces after the first sentence),
      written in three pieces so that each is short enough for the verifier
      to check character by character. */
  const BanMessage: string := BanOpening + BanMiddle + BanClosing
  const BanOpening: string := "You have been banned on suspicion of "
  const BanMiddle: string := "proxy use.  If you believe this is in "
  const BanClosing: string := "error, please contact the administrators."

  lemma OpeningOneLine() ensures '\n' !in BanOpening { }
  lemma MiddleOneLine() ensures '\n' !in BanMiddle { }
  lemma ClosingOneLine() ensures '\n' !in BanClosing { }

  /** The ban message is a single line. */
  lemma BanMessageOneLine()
    ensures '\n' !in BanMessage
  {
    OpeningOneLine();
    MiddleOneLine();
    ClosingOneLine();
  }

  /** The record `addBan` appends for `ip`. */
  function Record(ip: string): string {
    ip + ":" + BanMessage + "\n"
  }

  /** `strings.HasPrefix(line, prefix)`: a literal prefix test. */
  predicate HasPrefix(line: string, prefix: string) {
    prefix <= line
  }

  // ---------------------------------------------------------------------
  // Reading lines: `bufio.Reader.ReadString('\n')`
  // ---------------------------------------------------------------------

  /** The offset of the first newline at or after offset `i`. */
  function NewlineFrom(s: string, i: nat): (r: Option<nat>)
    requires i <= |s|
    ensures r.Some? ==> i <= r.value < |s|
    decreases |s| - i
  {
    if i == |s| then None
    else if s[i] == '\n' then Some(i)
    else NewlineFrom(s, i + 1)
  }

  /** `NewlineFrom` finds the first newline, and there is none when it
      finds nothing. */
  lemma {:induction false} NewlineFromSpec(s: string, i: nat)
    requires i <= |s|
    ensures NewlineFrom(s, i).Some? ==> s[NewlineFrom(s, i).value] == '\n'
    ensures forall j | i <= j < |s| && (NewlineFrom(s, i).None? || j < NewlineFrom(s, i).value) :: s[j] != '\n'
    decreases |s| - i
  {
    if i < |s| && s[i] != '\n' {
      NewlineFromSpec(s, i + 1);
    }
  }

  /** The result of one read: a line with its newline and the offset after
      it, or end of file with whatever unterminated text was left. */
  datatype ReadResult = Line(text: string, next: nat) | Eof(partial: string)

  /** One `ReadString('\n')` at offset `pos` of the file. */
  function ReadString(s: string, pos: nat): (r: ReadResult)
    requires pos <= |s|
    ensures r.Line? ==> pos < r.next <= |s| && r.text == s[pos..r.next]
    ensures r.Eof? ==> r.partial == s[pos..]
  {
    match NewlineFrom(s, pos)
    case None => Eof(s[pos..])
    case Some(k) => Line(s[pos..k + 1], k + 1)
  }

  /** A read returns a complete line: it ends with the newline and holds no
      other; end of file is reported exactly when no newline is left. */
  lemma ReadStringSpec(s: string, pos: nat)
    requires pos <= |s|
    ensures ReadString(s, pos).Line? ==>
      var r := ReadString(s, pos);
      s[r.next - 1] == '\n' && forall j | pos <= j < r.next - 1 :: s[j] != '\n'
    ensures ReadString(s, pos).Eof? <==> forall j | pos <= j < |s| :: s[j] != '\n'
  {
    NewlineFromSpec(s, pos);
  }

  /** The newline-terminated lines from offset `pos` on, in the order the
      scan reads them; an unterminated last line is not one of them. */
  function LinesFrom(s: string, pos: nat): (ls: seq<string>)
    requires pos <= |s|
    decreases |s| - pos
  {
    match ReadString(s, pos)
    case Eof(_) => []
    case Line(text, next) => [text] + LinesFrom(s, next)
  }

  /** The newline-terminated lines of a file. */
  function Lines(s: string): seq<string> {
    LinesFrom(s, 0)
  }

  /** The lines joined back together. */
  function Join(ls: seq<string>): string {
    if |ls| == 0 then [] else ls[0] + Join(ls[1..])
  }

  /** The file is empty or ends with a newline. */
  predicate Terminated(s: string) {
    |s| == 0 || s[|s| - 1] == '\n'
  }

  /** The lines, joined, are the file from `pos` up to its unterminated
      tail. */
  lemma {:induction false} LinesFromJoin(s: string, pos: nat)
    requires pos <= |s|
    ensures At(s, pos, Join(LinesFrom(s, pos)))
    decreases |s| - pos
  {
    match NewlineFrom(s, pos)
    case None =>
    case Some(k) =>
      LinesFromJoin(s, k + 1);
      var line := s[pos..k + 1];
      LinesFromStep(s, pos, k);
      JoinCons(line, LinesFrom(s, k + 1));
      AtSlice(s, pos, k + 1);
      AtConcat(s, pos, line, Join(LinesFrom(s, k + 1)));
  }

  /** The unterminated tail after the lines holds no newline. */
  lemma {:induction false} LinesFromTail(s: string, pos: nat)
    requires pos <= |s|
    ensures forall j | pos + |Join(LinesFrom(s, pos))| <= j < |s| :: s[j] != '\n'
    decreases |s| - pos
  {
    match NewlineFrom(s, pos)
    case None =>
      NewlineFromSpec(s, pos);
    case Some(k) =>
      LinesFromStep(s, pos, k);
      LinesFromTail(s, k + 1);
      JoinCons(s[pos..k + 1], LinesFrom(s, k + 1));
  }

  /** Splitting into lines and joining them back gives the file, up to an
      unterminated tail; nothing else is lost. */
  lemma LinesJoin(s: string)
    ensures Join(Lines(s)) <= s
    ensures forall j | |Join(Lines(s))| <= j < |s| :: s[j] != '\n'
    ensures Terminated(s) ==> Join(Lines(s)) == s
  {
    LinesFromJoin(s, 0);
    LinesFromTail(s, 0);
    AtPrefix(s, Join(Lines(s)));
  }

  /** Each line ends with its newline and holds no other. */
  lemma {:induction false} LinesFromShape(s: string, pos: nat, k: nat)
    requires pos <= |s| && k < |LinesFrom(s, pos)|
    ensures |LinesFrom(s, pos)[k]| > 0
    ensures LinesFrom(s, pos)[k][|LinesFrom(s, pos)[k]| - 1] == '\n'
    ensures forall j | 0 <= j < |LinesFrom(s, pos)[k]| - 1 :: LinesFrom(s, pos)[k][j] != '\n'
    decreases |s| - pos
  {
    ReadStringSpec(s, pos);
    var r := ReadString(s, pos);
    if k > 0 {
      LinesFromShape(s, r.next, k - 1);
    } else {
      forall j | 0 <= j < |r.text| - 1 ensures r.text[j] != '\n' {
        assert r.text[j] == s[pos + j];
      }
    }
  }

  // --- lines of concatenations

  /** Looking for a newline inside `f` does not look at what follows `f`. */
  lemma {:induction false} NewlineFromAppend(f: string, g: string, i: nat, k: nat)
    requires i <= k < |f| && f[k] == '\n'
    ensures NewlineFrom(f + g, i) == NewlineFrom(f, i)
    ensures NewlineFrom(f, i).Some? && NewlineFrom(f, i).value <= k
    decreases k - i
  {
    if f[i] != '\n' {
      NewlineFromAppend(f, g, i + 1, k);
    }
  }

  /** Looking for a newline after `f` finds the newlines of `g`, shifted. */
  lemma {:induction false} NewlineFromShift(f: string, g: string, j: nat)
    requires j <= |g|
    ensures NewlineFrom(f + g, |f| + j) ==
      match NewlineFrom(g, j) case None => None case Some(k) => Some(|f| + k)
    decreases |g| - j
  {
    if j < |g| {
      assert (f + g)[|f| + j] == g[j];
      if g[j] != '\n' {
        NewlineFromShift(f, g, j + 1);
      }
    }
  }

  /** The lines after `f` in `f + g` are the lines of `g`. */
  lemma {:induction false} LinesFromShift(f: string, g: string, j: nat)
    requires j <= |g|
    ensures LinesFrom(f + g, |f| + j) == LinesFrom(g, j)
    decreases |g| - j
  {
    var s := f + g;
    NewlineFromShift(f, g, j);
    if NewlineFrom(g, j).None? {
      LinesFromNone(s, |f| + j);
      LinesFromNone(g, j);
    } else {
      var k := NewlineFrom(g, j).value;
      LinesFromStep(s, |f| + j, |f| + k);
      LinesFromStep(g, j, k);
      SliceShift(f, g, j, k + 1);
      LinesFromShift(f, g, k + 1);
    }
  }

  /** Where no newline is left, the scan reads no more lines. */
  lemma LinesFromNone(s: string, pos: nat)
    requires pos <= |s| && NewlineFrom(s, pos).None?
    ensures LinesFrom(s, pos) == []
  {
  }

  /** One read, once the newline that ends it is known. */
  lemma LinesFromStep(s: string, pos: nat, k: nat)
    requires pos <= |s| && NewlineFrom(s, pos) == Some(k)
    ensures LinesFrom(s, pos) == [s[pos..k + 1]] + LinesFrom(s, k + 1)
  {
  }

  /** Cutting inside `f` does not see what follows it. */
  lemma SliceAppend(f: string, g: string, i: nat, j: nat)
    requires i <= j <= |f|
    ensures (f + g)[i..j] == f[i..j]
  {
  }

  /** Cutting after `f` cuts `g`. */
  lemma SliceShift(f: string, g: string, i: nat, j: nat)
    requires i <= j <= |g|
    ensures (f + g)[|f| + i..|f| + j] == g[i..j]
  {
  }

  /** Joining a line in front of more lines. */
  lemma JoinCons(line: string, ls: seq<string>)
    ensures Join([line] + ls) == line + Join(ls)
  {
    assert ([line] + ls)[1..] == ls;
  }

  /** One read of `f + g` inside `f` reads the same line as in `f`. */
  lemma LinesFromAppendStep(f: string, g: string, i: nat, k: nat)
    requires i <= k < |f|
    requires NewlineFrom(f, i) == Some(k) && NewlineFrom(f + g, i) == Some(k)
    requires LinesFrom(f + g, k + 1) == LinesFrom(f, k + 1) + LinesFrom(g, 0)
    ensures LinesFrom(f + g, i) == LinesFrom(f, i) + LinesFrom(g, 0)
  {
    LinesFromStep(f + g, i, k);
    LinesFromStep(f, i, k);
    SliceAppend(f, g, i, k + 1);
    ConsAppend(f[i..k + 1], LinesFrom(f, k + 1), LinesFrom(g, 0));
  }

  /** Concatenation of sequences of lines is associative. */
  lemma ConsAppend(x: string, a: seq<string>, b: seq<string>)
    ensures [x] + (a + b) == ([x] + a) + b
  {
  }

  /** Inside a terminated `f`, the lines of `f + g` are those of `f`,
      followed by those of `g`. */
  lemma {:induction false} LinesFromAppend(f: string, g: string, i: nat)
    requires i <= |f| && Terminated(f)
    ensures LinesFrom(f + g, i) == LinesFrom(f, i) + LinesFrom(g, 0)
    decreases |f| - i
  {
    if i == |f| {
      LinesFromShift(f, g, 0);
      LinesFromEnd(f);
      assert LinesFrom(f, i) + LinesFrom(g, 0) == LinesFrom(g, 0);
    } else {
      NewlineFromAppend(f, g, i, |f| - 1);
      var k := NewlineFrom(f, i).value;
      LinesFromAppend(f, g, k + 1);
      LinesFromAppendStep(f, g, i, k);
    }
  }

  /** Appending to a terminated file keeps its lines and adds those of
      the appended text. */
  lemma LinesAppend(f: string, g: string)
    requires Terminated(f)
    ensures Lines(f + g) == Lines(f) + Lines(g)
  {
    LinesFromAppend(f, g, 0);
  }

  /** Appending anything to a file, terminated or not, keeps the lines
      read from offset `i` on: they are the first lines read afterwards. */
  lemma {:induction false} LinesFromPrefix(f: string, w: string, i: nat)
    requires i <= |f|
    ensures LinesFrom(f, i) <= LinesFrom(f + w, i)
    decreases |f| - i
  {
    if NewlineFrom(f, i).None? {
      LinesFromNone(f, i);
    } else {
      var k := NewlineFrom(f, i).value;
      NewlineFromSpec(f, i);
      NewlineFromAppend(f, w, i, k);
      LinesFromStep(f, i, k);
      LinesFromStep(f + w, i, k);
      SliceAppend(f, w, i, k + 1);
      var line := f[i..k + 1];
      assert LinesFrom(f + w, i) == [line] + LinesFrom(f + w, k + 1);
      LinesFromPrefix(f, w, k + 1);
      ConsPrefix(line, LinesFrom(f, k + 1), LinesFrom(f + w, k + 1));
    }
  }

  /** A prefix stays a prefix behind the same first line. */
  lemma ConsPrefix(x: string, a: seq<string>, b: seq<string>)
    requires a <= b
    ensures [x] + a <= [x] + b
  {
    assert ([x] + b)[..|[x] + a|] == [x] + a;
  }

  /** Appending anything to a file keeps its lines, in order, at the start. */
  lemma LinesPrefix(f: string, w: string)
    ensures Lines(f) <= Lines(f + w)
  {
    LinesFromPrefix(f, w, 0);
  }

  /** Text without a newline holds no complete line. */
  lemma LinesNone(s: string)
    requires forall j | 0 <= j < |s| :: s[j] != '\n'
    ensures Lines(s) == []
  {
    ReadStringSpec(s, 0);
  }

  /** The scan reads nothing at the end of the file. */
  lemma LinesFromEnd(s: string)
    ensures LinesFrom(s, |s|) == []
  {
  }

  /** A record holds no newline but its last character when the IP holds
      none. */
  lemma RecordOneLine(ip: string)
    requires forall j | 0 <= j < |ip| :: ip[j] != '\n'
    ensures |Record(ip)| > 0 && Record(ip)[|Record(ip)| - 1] == '\n'
    ensures forall j | 0 <= j < |Record(ip)| - 1 :: Record(ip)[j] != '\n'
  {
    BanMessageOneLine();
    FieldsOneLine(ip, BanMessage);
  }

  /** `ip:msg` and a newline, for any one-line `ip` and `msg`: the newline
      is the last character and the only one. */
  lemma FieldsOneLine(ip: string, msg: string)
    requires forall j | 0 <= j < |ip| :: ip[j] != '\n'
    requires '\n' !in msg
    ensures var r := ip + ":" + msg + "\n";
      r[|r| - 1] == '\n' && forall j | 0 <= j < |r| - 1 :: r[j] != '\n'
  {
    var r := ip + ":" + msg + "\n";
    forall j | 0 <= j < |r| - 1 ensures r[j] != '\n' {
      if j < |ip| {
        assert r[j] == ip[j];
      } else if j > |ip| {
        assert r[j] == msg[j - |ip| - 1];
      }
    }
  }

  /** A record is a single complete line when the IP holds no newline, and
      it starts with the IP. */
  lemma RecordLines(ip: string)
    requires forall j | 0 <= j < |ip| :: ip[j] != '\n'
    ensures Terminated(Record(ip))
    ensures Lines(Record(ip)) == [Record(ip)]
    ensures HasPrefix(Record(ip), ip)
  {
    RecordOneLine(ip);
    SingleLine(Record(ip));
    assert ip <= Record(ip) by {
      assert Record(ip)[..|ip|] == ip;
    }
  }

  /** Text whose only newline is its last character is one line. */
  lemma SingleLine(r: string)
    requires |r| > 0 && r[|r| - 1] == '\n'
    requires forall j | 0 <= j < |r| - 1 :: r[j] != '\n'
    ensures Lines(r) == [r]
  {
    NewlineFromSpec(r, 0);
    assert NewlineFrom(r, 0) == Some(|r| - 1);
    assert r[0..|r|] == r;
    LinesFromEnd(r);
  }

  // ---------------------------------------------------------------------
  // The scan
  // ---------------------------------------------------------------------

  /** Some newline-terminated line of the file starts with `ip`. */
  ghost predicate Listed(file: string, ip: string) {
    exists k | 0 <= k < |Lines(file)| :: HasPrefix(Lines(file)[k], ip)
  }

  /** The index of the first line that starts with `ip`, or the number of
      lines when none does: where the scan stops. */
  function FirstListed(lines: seq<string>, ip: string, from: nat): (k: nat)
    requires from <= |lines|
    ensures from <= k <= |lines|
    ensures k < |lines| ==> HasPrefix(lines[k], ip)
    ensures forall j | from <= j < k :: !HasPrefix(lines[j], ip)
    decreases |lines| - from
  {
    if from == |lines| then from
    else if HasPrefix(lines[from], ip) then from
    else FirstListed(lines, ip, from + 1)
  }

  /** The scan stops before the end exactly when the IP is listed. */
  lemma ListedFirst(file: string, ip: string)
    ensures Listed(file, ip) <==> FirstListed(Lines(file), ip, 0) < |Lines(file)|
  {
  }

  // ---------------------------------------------------------------------
  // addBan
  // ---------------------------------------------------------------------

  /** How the environment behaves during one `addBan`: nothing fails, the
      open fails, the read with the given (0-based) number fails with an
      error other than end of file, or the write fails after writing the
      given number of characters. */
  datatype Fault = NoFault | OpenFails | ReadFails(call: nat) | WriteFails(written: nat)

  /** The step whose error `addBan` returns. */
  datatype Stage = Open | Read | Write

  /** How `addBan` ends: the record was appended, a line already starts
      with the IP (both return no error), or an error is returned. */
  datatype Status = Added | AlreadyListed | Failed(stage: Stage)

  /** The file after a call and how the call ended. */
  datatype Outcome = Outcome(file: string, status: Status)

  function Min(a: nat, b: nat): nat {
    if a < b then a else b
  }

  /** What `addBan(ip)` does to a banlist file holding `file`. The scan
      makes one read per line up to and including the first line that
      starts with `ip`, or one per line and a last one that reports end of
      file; a failing read among them ends the call. */
  function AddBanSpec(file: string, ip: string, fault: Fault): (o: Outcome) {
    if fault == OpenFails then Outcome(file, Failed(Open))
    else
      var lines := Lines(file);
      var k := FirstListed(lines, ip, 0);
      if fault.ReadFails? && fault.call <= k then Outcome(file, Failed(Read))
      else if k < |lines| then Outcome(file, AlreadyListed)
      else if fault.WriteFails? then
        Outcome(file + Record(ip)[..Min(fault.written, |Record(ip)|)], Failed(Write))
      else Outcome(file + Record(ip), Added)
  }

  /** The banlist file. */
  class Store {
    var contents: string

    constructor (initial: string)
      ensures contents == initial
    {
      contents := initial;
    }

    /** `addBan(ip)`: scan the lines for one starting with `ip`; append the
        record when there is none. */
    method AddBan(ip: string, fault: Fault) returns (status: Status)
      modifies this
      ensures contents == AddBanSpec(old(contents), ip, fault).file
      ensures status == AddBanSpec(old(contents), ip, fault).status
    {
      if fault == OpenFails {
        return Failed(Open);
      }
      ghost var lines := Lines(contents);
      var pos := 0;
      var call := 0;
      while true
        invariant contents == old(contents)
        invariant pos <= |contents| && call <= |lines|
        invariant LinesFrom(contents, pos) == lines[call..]
        invariant forall j | 0 <= j < call :: !HasPrefix(lines[j], ip)
        invariant !(fault.ReadFails? && fault.call < call)
        decreases |contents| - pos
      {
        if fault == ReadFails(call) {
          return Failed(Read);
        }
        var r := ReadString(contents, pos);
        if r.Eof? {
          break;
        }
        assert lines[call] == r.text && LinesFrom(contents, r.next) == lines[call + 1..];
        if HasPrefix(r.text, ip) {
          return AlreadyListed;
        }
        pos := r.next;
        call := call + 1;
      }
      assert call == |lines|;
      var record := Record(ip);
      if fault.WriteFails? {
        contents := contents + record[..Min(fault.written, |record|)];
        return Failed(Write);
      }
      contents := contents + record;
      return Added;
    }
  }

  // ---------------------------------------------------------------------
  // Properties of addBan
  // ---------------------------------------------------------------------

  /** The file only ever grows at its end, by a prefix of the record (all
      of it when the write succeeds); existing text is never changed. */
  lemma AddBanAppends(file: string, ip: string, fault: Fault)
    ensures exists w :: w <= Record(ip) && AddBanSpec(file, ip, fault).file == file + w
    ensures AddBanSpec(file, ip, fault).status == Added ==> AddBanSpec(file, ip, fault).file == file + Record(ip)
    ensures AddBanSpec(file, ip, fault).status != Added && !AddBanSpec(file, ip, fault).status.Failed? ==>
      AddBanSpec(file, ip, fault).file == file
  {
    var o := AddBanSpec(file, ip, fault);
    if o.file == file {
      assert [] <= Record(ip) && o.file == file + [];
    } else if o.status == Added {
      assert Record(ip) <= Record(ip);
    } else {
      var w := Record(ip)[..Min(fault.written, |Record(ip)|)];
      assert w <= Record(ip);
    }
  }

  /** When nothing fails: a listed IP is reported as such and nothing is
      written; an IP that is not listed gets its record appended. */
  lemma AddBanNoFault(file: string, ip: string)
    ensures AddBanSpec(file, ip, NoFault).status == AlreadyListed <==> Listed(file, ip)
    ensures AddBanSpec(file, ip, NoFault).status == Added <==> !Listed(file, ip)
    ensures Listed(file, ip) ==> AddBanSpec(file, ip, NoFault).file == file
    ensures !Listed(file, ip) ==> AddBanSpec(file, ip, NoFault).file == file + Record(ip)
  {
    ListedFirst(file, ip);
  }

  /** The record is appended only when no line started with the IP, and a
      failing open or read changes nothing. */
  lemma AddBanGuard(file: string, ip: string, fault: Fault)
    ensures AddBanSpec(file, ip, fault).file != file ==> !Listed(file, ip)
    ensures AddBanSpec(file, ip, fault).status == Added ==> !Listed(file, ip)
    ensures AddBanSpec(file, ip, fault).status in {Failed(Open), Failed(Read)} ==>
      AddBanSpec(file, ip, fault).file == file
  {
    ListedFirst(file, ip);
  }

  /** The lines of a file survive any call unchanged and in order; only
      new lines follow them. */
  lemma AddBanKeepsLines(file: string, ip: string, fault: Fault)
    ensures Lines(file) <= Lines(AddBanSpec(file, ip, fault).file)
  {
    AddBanAppends(file, ip, fault);
    var w :| w <= Record(ip) && AddBanSpec(file, ip, fault).file == file + w;
    LinesPrefix(file, w);
  }

  /** An IP listed in a file stays listed after any call. */
  lemma AddBanKeepsListed(file: string, ip: string, fault: Fault, other: string)
    requires Listed(file, other)
    ensures Listed(AddBanSpec(file, ip, fault).file, other)
  {
    AddBanKeepsLines(file, ip, fault);
    var k :| 0 <= k < |Lines(file)| && HasPrefix(Lines(file)[k], other);
    var after := Lines(AddBanSpec(file, ip, fault).file);
    assert after[k] == Lines(file)[k];
  }

  /** After a successful call on a terminated file, the IP is listed and
      the file is still terminated. */
  lemma AddBanLists(file: string, ip: string, fault: Fault)
    requires Terminated(file) && forall j | 0 <= j < |ip| :: ip[j] != '\n'
    requires AddBanSpec(file, ip, fault).status in {Added, AlreadyListed}
    ensures Listed(AddBanSpec(file, ip, fault).file, ip)
    ensures Terminated(AddBanSpec(file, ip, fault).file)
  {
    var o := AddBanSpec(file, ip, fault);
    ListedFirst(file, ip);
    if o.status == Added {
      assert o.file == file + Record(ip);
      RecordLines(ip);
      LinesAppend(file, Record(ip));
      assert Lines(o.file)[|Lines(file)|] == Record(ip);
      AppendTerminated(file, Record(ip));
    } else {
      assert o.file == file;
    }
  }

  /** Appending text that ends with a newline leaves a terminated file. */
  lemma AppendTerminated(file: string, r: string)
    requires Terminated(r) && |r| > 0
    ensures Terminated(file + r)
  {
    assert (file + r)[|file + r| - 1] == r[|r| - 1];
  }

  /** Adding the same IP twice to a terminated file writes one record: the
      second call reports the IP as listed and changes nothing. */
  lemma AddBanIdempotent(file: string, ip: string)
    requires Terminated(file) && forall j | 0 <= j < |ip| :: ip[j] != '\n'
    ensures var once := AddBanSpec(file, ip, NoFault).file;
            AddBanSpec(once, ip, NoFault) == Outcome(once, AlreadyListed)
  {
    AddBanNoFault(file, ip);
    AddBanLists(file, ip, NoFault);
    AddBanNoFault(AddBanSpec(file, ip, NoFault).file, ip);
  }

  /** Number of lines that start with `ip`. */
  function Entries(lines: seq<string>, ip: string): nat {
    if |lines| == 0 then 0
    else (if HasPrefix(lines[0], ip) then 1 else 0) + Entries(lines[1..], ip)
  }

  /** A sequence of lines none of which starts with `ip` has no entry. */
  lemma {:induction false} EntriesNone(lines: seq<string>, ip: string)
    requires forall j | 0 <= j < |lines| :: !HasPrefix(lines[j], ip)
    ensures Entries(lines, ip) == 0
  {
    if |lines| > 0 {
      assert !HasPrefix(lines[0], ip);
      EntriesNone(lines[1..], ip);
    }
  }

  /** Entries are counted line by line. */
  lemma {:induction false} EntriesAppend(a: seq<string>, b: seq<string>, ip: string)
    ensures Entries(a + b, ip) == Entries(a, ip) + Entries(b, ip)
  {
    if |a| > 0 {
      assert (a + b)[1..] == a[1..] + b;
      EntriesAppend(a[1..], b, ip);
    } else {
      assert a + b == b;
    }
  }

  /** On a terminated file where no line starts with `ip`, one call leaves
      exactly one line starting with `ip` (and, by `AddBanIdempotent`, a
      second call changes nothing). */
  lemma AddBanOneEntry(file: string, ip: string)
    requires Terminated(file) && !Listed(file, ip) && forall j | 0 <= j < |ip| :: ip[j] != '\n'
    ensures Entries(Lines(AddBanSpec(file, ip, NoFault).file), ip) == 1
  {
    AddBanNoFault(file, ip);
    RecordLines(ip);
    EntriesAfterLine(file, Record(ip), ip);
  }

  /** The same for any single line that starts with `ip`. */
  lemma EntriesAfterLine(file: string, line: string, ip: string)
    requires Terminated(file) && !Listed(file, ip)
    requires Lines(line) == [line] && HasPrefix(line, ip)
    ensures Entries(Lines(file + line), ip) == 1
  {
    LinesAppend(file, line);
    ListedFirst(file, ip);
    EntriesOneMore(Lines(file), line, ip);
  }

  /** One line starting with `ip` after lines none of which does. */
  lemma EntriesOneMore(lines: seq<string>, line: string, ip: string)
    requires forall j | 0 <= j < |lines| :: !HasPrefix(lines[j], ip)
    requires HasPrefix(line, ip)
    ensures Entries(lines + [line], ip) == 1
  {
    EntriesNone(lines, ip);
    EntriesAppend(lines, [line], ip);
    assert [line][1..] == [];
  }

  /** The prefix test reports an IP as listed when a line holds a longer IP
      that starts with it: with only the record of `1.2.3.40` in the file,
      adding `1.2.3.4` writes nothing. */
  lemma PrefixFalsePositive()
    ensures AddBanSpec(Record("1.2.3.40"), "1.2.3.4", NoFault) == Outcome(Record("1.2.3.40"), AlreadyListed)
  {
    var ip, longer := "1.2.3.4", "1.2.3.40";
    RecordLines(longer);
    assert ip <= longer;
    PrefixListed(Record(longer), ip, longer);
  }

  /** A one-line file whose line starts with a string that starts with
      `ip` lists `ip`. */
  lemma PrefixListed(file: string, ip: string, longer: string)
    requires Lines(file) == [file] && HasPrefix(file, longer) && ip <= longer
    ensures AddBanSpec(file, ip, NoFault) == Outcome(file, AlreadyListed)
  {
    assert HasPrefix(Lines(file)[0], ip);
    AddBanNoFault(file, ip);
  }

  /** An unterminated last line is never checked: even when it starts with
      the IP, the record is appended after it. */
  lemma UnterminatedTailIgnored(file: string, tail: string, ip: string)
    requires Terminated(file) && !Listed(file, ip)
    requires forall j | 0 <= j < |tail| :: tail[j] != '\n'
    ensures AddBanSpec(file + tail, ip, NoFault) == Outcome(file + tail + Record(ip), Added)
  {
    LinesNone(tail);
    LinesAppend(file, tail);
    assert Lines(file + tail) == Lines(file);
    AddBanNoFault(file, ip);
    ListedFirst(file, ip);
  }

  /** After a torn write the next call does not see the partial record
      and appends the whole record right after it, on the same line. */
  lemma TornWriteRetried(file: string, ip: string, w: nat)
    requires Terminated(file) && !Listed(file, ip) && forall j | 0 <= j < |ip| :: ip[j] != '\n'
    requires w < |Record(ip)|
    ensures var torn := AddBanSpec(file, ip, WriteFails(w));
            && torn == Outcome(file + Record(ip)[..w], Failed(Write))
            && AddBanSpec(torn.file, ip, NoFault) == Outcome(torn.file + Record(ip), Added)
  {
    ListedFirst(file, ip);
    RecordOneLine(ip);
    var r := Record(ip);
    forall j | 0 <= j < |r[..w]| ensures r[..w][j] != '\n' {
      assert r[..w][j] == r[j];
    }
    UnterminatedTailIgnored(file, r[..w], ip);
  }
}
