/** Small string vocabulary shared by the extractor and the banlist store:
    an option type, the character classes of the two log-line patterns,
    and maximal runs of characters of one class. */
module Text {

  datatype Option<+T> = None | Some(value: T)

  /** `[0-9]` */
  predicate IsDigit(c: char) {
    '0' <= c <= '9'
  }

  /** `[0-9.]`, the characters of the version in `Connect (v1.2.3): ...` */
  predicate IsVersionChar(c: char) {
    IsDigit(c) || c == '.'
  }

  /** `[0-9:;\[\]]`, the characters of the leading timestamp token */
  predicate IsStampChar(c: char) {
    IsDigit(c) || c == ':' || c == ';' || c == '[' || c == ']'
  }

  /** The three character classes of the two patterns. */
  datatype CharClass = Digits | VersionChars | StampChars

  predicate InClass(cls: CharClass, c: char) {
    match cls
    case Digits => IsDigit(c)
    case VersionChars => IsVersionChar(c)
    case StampChars => IsStampChar(c)
  }

  /** Every character of `s[lo..hi]` is of class `cls`. */
  predicate AllIn(s: string, lo: nat, hi: nat, cls: CharClass) {
    lo <= hi <= |s| && forall k | lo <= k < hi :: InClass(cls, s[k])
  }

  /** A non-empty run of decimal digits, what `[0-9]+` matches. */
  predicate IsNumeral(s: string) {
    |s| > 0 && AllIn(s, 0, |s|, Digits)
  }

  /** The length of the longest run of `cls` characters that starts at
      position `i` of `s`: the text a greedy `[...]+` consumes there. */
  function ClassRun(s: string, i: nat, cls: CharClass): (n: nat)
    requires i <= |s|
    ensures i + n <= |s|
    decreases |s| - i
  {
    if i < |s| && InClass(cls, s[i]) then 1 + ClassRun(s, i + 1, cls) else 0
  }

  /** The run is made of `cls` characters and stops at the end of `s` or
      at a character outside the class. */
  lemma {:induction false} RunSpan(s: string, i: nat, cls: CharClass)
    requires i <= |s|
    ensures AllIn(s, i, i + ClassRun(s, i, cls), cls)
    ensures i + ClassRun(s, i, cls) == |s| || !InClass(cls, s[i + ClassRun(s, i, cls)])
    decreases |s| - i
  {
    if i < |s| && InClass(cls, s[i]) {
      RunSpan(s, i + 1, cls);
    }
  }

  /** A run is determined by where it stops: any stretch of `cls`
      characters that is followed by another character (or the end) is the
      run. */
  lemma {:induction false} RunUnique(s: string, i: nat, cls: CharClass, n: nat)
    requires AllIn(s, i, i + n, cls)
    requires i + n == |s| || !InClass(cls, s[i + n])
    ensures ClassRun(s, i, cls) == n
    decreases n
  {
    if n > 0 {
      RunUnique(s, i + 1, cls, n - 1);
    }
  }

  /** A run reaches at least the end of any stretch of `cls` characters. */
  lemma {:induction false} RunCovers(s: string, i: nat, cls: CharClass, n: nat)
    requires AllIn(s, i, i + n, cls)
    ensures ClassRun(s, i, cls) >= n
    decreases n
  {
    if n > 0 {
      RunCovers(s, i + 1, cls, n - 1);
    }
  }

  /** `w` occurs in `s` at offset `i`. */
  predicate At(s: string, i: nat, w: string) {
    i + |w| <= |s| && forall t | 0 <= t < |w| :: s[i + t] == w[t]
  }

  /** Where `w` occurs, `s` has the characters of `w`, so a class all of
      them belong to. */
  lemma AtChars(s: string, i: nat, w: string, cls: CharClass)
    requires At(s, i, w) && AllIn(w, 0, |w|, cls)
    ensures AllIn(s, i, i + |w|, cls)
  {
    forall k | i <= k < i + |w| ensures InClass(cls, s[k]) {
      assert s[i + (k - i)] == w[k - i];
    }
  }

  /** Both halves of a concatenation occur in it. */
  lemma AtAppend(x: string, y: string)
    ensures At(x + y, 0, x) && At(x + y, |x|, y)
  {
    forall t | 0 <= t < |y| ensures (x + y)[|x| + t] == y[t] {
    }
  }

  /** A string occurs in itself. */
  lemma AtWhole(s: string)
    ensures At(s, 0, s)
  {
    forall t | 0 <= t < |s| ensures s[0 + t] == s[t] {
    }
  }

  /** A slice occurs where it was cut from. */
  lemma AtSlice(s: string, i: nat, e: nat)
    requires i <= e <= |s|
    ensures At(s, i, s[i..e])
  {
  }

  /** Two adjacent occurrences make an occurrence of the concatenation. */
  lemma AtConcat(s: string, i: nat, x: string, y: string)
    requires At(s, i, x) && At(s, i + |x|, y)
    ensures At(s, i, x + y)
  {
    forall t | |x| <= t < |x + y| ensures s[i + t] == (x + y)[t] {
      assert s[i + |x| + (t - |x|)] == y[t - |x|];
    }
  }

  /** An occurrence at the start is a prefix. */
  lemma AtPrefix(s: string, w: string)
    requires At(s, 0, w)
    ensures w <= s
  {
    assert s[..|w|] == w by {
      forall t | 0 <= t < |w| ensures s[..|w|][t] == w[t] {
        assert s[0 + t] == w[t];
      }
    }
  }

  /** An occurrence in a suffix is an occurrence in the whole string. */
  lemma AtSuffix(s: string, m: nat, i: nat, w: string)
    requires m <= |s| && At(s[m..], i, w)
    ensures At(s, m + i, w)
  {
    forall t | 0 <= t < |w| ensures s[m + i + t] == w[t] {
      assert s[m..][i + t] == w[t];
    }
  }

  /** A class stretch in a suffix is one in the whole string. */
  lemma AllInSuffix(s: string, m: nat, lo: nat, hi: nat, cls: CharClass)
    requires m <= |s| && AllIn(s[m..], lo, hi, cls)
    ensures AllIn(s, m + lo, m + hi, cls)
  {
    forall k | m + lo <= k < m + hi ensures InClass(cls, s[k]) {
      assert s[m..][k - m] == s[k];
    }
  }
}
