/** Python string primitives used throughout the pipeline, over `string` (a `seq<char>`).
    Whitespace is Python's `str.isspace()` restricted to the ASCII range. */
module Text {

  /** `c.isspace()` for ASCII: space, \t \n \v \f \r and the four separators \x1c-\x1f. */
  predicate IsSpace(c: char) {
    c == ' ' || ('\t' <= c <= '\r') || ('\U{1C}' <= c <= '\U{1F}')
  }

  predicate NoSpace(s: string) {
    forall i :: 0 <= i < |s| ==> !IsSpace(s[i])
  }

  predicate StartsWith(s: string, p: string) {
    |p| <= |s| && s[..|p|] == p
  }

  predicate EndsWith(s: string, p: string) {
    |p| <= |s| && s[|s| - |p|..] == p
  }

  /** `pat` occurs in `s` at position `i`. */
  predicate At(s: string, i: nat, pat: string) {
    i + |pat| <= |s| && s[i..i + |pat|] == pat
  }

  /** Python's `pat in s`. */
  predicate Contains(s: string, pat: string) {
    exists i: nat :: i <= |s| && At(s, i, pat)
  }

  /** `s.lstrip()` */
  function LStrip(s: string): (r: string)
    ensures |r| <= |s| && r == s[|s| - |r|..]
    ensures r == [] || !IsSpace(r[0])
    ensures forall i :: 0 <= i < |s| - |r| ==> IsSpace(s[i])
  {
    if |s| > 0 && IsSpace(s[0]) then LStrip(s[1..]) else s
  }

  /** `s.rstrip()` */
  function RStrip(s: string): (r: string)
    ensures |r| <= |s| && r == s[..|r|]
    ensures r == [] || !IsSpace(r[|r| - 1])
    ensures forall i :: |r| <= i < |s| ==> IsSpace(s[i])
  {
    if |s| > 0 && IsSpace(s[|s| - 1]) then RStrip(s[..|s| - 1]) else s
  }

  /** `r` occurs in `s` at `i` with only whitespace before and after it. */
  predicate StrippedAt(s: string, i: nat, r: string) {
    At(s, i, r) && AllSpace(s[..i]) && AllSpace(s[i + |r|..])
  }

  /** `s.strip()`: the longest infix that neither starts nor ends with whitespace;
      what it cuts off on either side is whitespace. */
  function Strip(s: string): (r: string)
    ensures r == [] || (!IsSpace(r[0]) && !IsSpace(r[|r| - 1]))
    ensures |r| <= |s| && Contains(s, r)
    ensures exists i: nat :: i <= |s| && StrippedAt(s, i, r)
  {
    var l := LStrip(s);
    var r := RStrip(l);
    var i := |s| - |l|;
    AtInSuffix(s, i, r);
    assert StrippedAt(s, i, r) by {
      assert s[i + |r|..] == l[|r|..];
    }
    r
  }

  /** A prefix of the suffix starting at `i` occurs at `i`. */
  lemma AtInSuffix(s: string, i: nat, pat: string)
    requires i <= |s| && |pat| <= |s| - i && pat == s[i..][..|pat|]
    ensures At(s, i, pat)
  {
  }

  lemma StripNoop(s: string)
    requires s == [] || (!IsSpace(s[0]) && !IsSpace(s[|s| - 1]))
    ensures Strip(s) == s
  {
  }

  predicate AllSpace(s: string) {
    forall i | 0 <= i < |s| :: IsSpace(s[i])
  }

  /** `len(s.strip()) == 0` holds exactly for the strings made of whitespace only. */
  lemma StripEmpty(s: string)
    ensures Strip(s) == [] <==> AllSpace(s)
  {
    var l := LStrip(s);
    if l != [] {
      assert !IsSpace(l[0]) && l[0] == s[|s| - |l|];
      assert RStrip(l) != [];
    }
  }

  /** `c.lower()` on ASCII letters; other characters are left as they are. */
  function LowerChar(c: char): char {
    if 'A' <= c <= 'Z' then (c as int + 32) as char else c
  }

  /** `s.lower()`: every character lowered. */
  function LowerStr(s: string): (r: string)
    ensures |r| == |s|
  {
    seq(|s|, i requires 0 <= i < |s| => LowerChar(s[i]))
  }

  /** The leading run of non-whitespace characters of `s`. */
  function Word(s: string): (w: string)
    ensures |w| <= |s| && w == s[..|w|] && NoSpace(w)
    ensures |w| == |s| || IsSpace(s[|w|])
  {
    if |s| == 0 || IsSpace(s[0]) then []
    else
      var w := Word(s[1..]);
      assert [s[0]] + w == s[..1 + |w|];
      [s[0]] + w
  }

  /** `s.split()`: the maximal runs of non-whitespace characters, in order. */
  function SplitWs(s: string): seq<string>
    decreases |s|
  {
    var t := LStrip(s);
    if t == [] then []
    else
      var w := Word(t);
      assert |w| > 0 by { assert !IsSpace(t[0]); }
      [w] + SplitWs(t[|w|..])
  }

  /** The pieces of `s.split()` are non-empty and free of whitespace. */
  lemma {:induction false} SplitWsWords(s: string)
    ensures Words(SplitWs(s))
    decreases |s|
  {
    var t := LStrip(s);
    if t != [] {
      var w := Word(t);
      assert |w| > 0 by { assert !IsSpace(t[0]); }
      var rest := SplitWs(t[|w|..]);
      assert SplitWs(s) == [w] + rest;
      SplitWsWords(t[|w|..]);
      WordsCons(w, rest);
    }
  }

  /** Every piece is non-empty and free of whitespace. */
  predicate Words(ws: seq<string>) {
    forall k :: 0 <= k < |ws| ==> ws[k] != [] && NoSpace(ws[k])
  }

  lemma WordsCons(w: string, ws: seq<string>)
    requires w != [] && NoSpace(w) && Words(ws)
    ensures Words([w] + ws)
  {
  }

  /** `sep.join(parts)` */
  function Join(sep: string, parts: seq<string>): string
  {
    if |parts| == 0 then []
    else if |parts| == 1 then parts[0]
    else parts[0] + sep + Join(sep, parts[1..])
  }

  /** `s.split(sep)` for a one-character separator: never empty, pieces free of `sep`. */
  function SplitOn(s: string, sep: char): (ps: seq<string>)
    ensures |ps| >= 1
    ensures forall k :: 0 <= k < |ps| ==> sep !in ps[k]
  {
    if sep !in s then [s]
    else
      var i := IndexOfChar(s, sep);
      [s[..i]] + SplitOn(s[i + 1..], sep)
  }

  /** Index of the first `c` in `s`. */
  function IndexOfChar(s: string, c: char): (i: nat)
    requires c in s
    ensures i < |s| && s[i] == c && c !in s[..i]
  {
    if s[0] == c then 0 else 1 + IndexOfChar(s[1..], c)
  }

  /** Index of the last `c` in `s` (Python's `s.rindex(c)`). */
  function LastIndexOfChar(s: string, c: char): (i: nat)
    requires c in s
    ensures i < |s| && s[i] == c && c !in s[i + 1..]
  {
    if s[|s| - 1] == c then |s| - 1 else LastIndexOfChar(s[..|s| - 1], c)
  }

  /** `s.replace(a, b)` for single characters. */
  function ReplaceChar(s: string, a: char, b: char): (r: string)
    ensures |r| == |s|
    ensures forall i :: 0 <= i < |s| ==> r[i] == (if s[i] == a then b else s[i])
  {
    seq(|s|, i requires 0 <= i < |s| => if s[i] == a then b else s[i])
  }

  /** `s.split(pat)[0]`: the part of `s` before the first occurrence of `pat`. */
  function CutAt(s: string, pat: string): (r: string)
    requires |pat| > 0
    ensures |r| <= |s| && r == s[..|r|]
    ensures !Contains(r, pat)
    ensures |r| < |s| ==> At(s, |r|, pat)
    ensures |r| == |s| ==> !Contains(s, pat)
  {
    if |s| < |pat| then
      assert forall i: nat :: i <= |s| ==> !At(s, i, pat);
      s
    else if s[..|pat|] == pat then
      assert !At([], 0, pat);
      []
    else
      var rest := CutAt(s[1..], pat);
      CutAtStep(s, pat, rest);
      [s[0]] + rest
  }

  lemma CutAtStep(s: string, pat: string, rest: string)
    requires 0 < |pat| <= |s| && s[..|pat|] != pat
    requires |rest| <= |s| - 1 && rest == s[1..][..|rest|] && !Contains(rest, pat)
    requires |rest| < |s| - 1 ==> At(s[1..], |rest|, pat)
    requires |rest| == |s| - 1 ==> !Contains(s[1..], pat)
    ensures !Contains([s[0]] + rest, pat)
    ensures |rest| + 1 < |s| ==> At(s, |rest| + 1, pat)
    ensures |rest| + 1 == |s| ==> !Contains(s, pat)
  {
    var r := [s[0]] + rest;
    forall i: nat | i <= |r| ensures !At(r, i, pat) {
      if i == 0 {
        if |pat| <= |r| {
          assert r[..|pat|] == s[..|pat|];
        }
      } else {
        AtTail(r, i, pat);
      }
    }
    if |r| == |s| {
      forall i: nat | 0 < i <= |s| ensures !At(s, i, pat) {
        AtTail(s, i, pat);
      }
    } else {
      AtTail(s, |r|, pat);
    }
  }

  /** An occurrence past the first character is an occurrence in the tail. */
  lemma AtTail(s: string, i: nat, pat: string)
    requires 0 < i <= |s|
    ensures At(s, i, pat) <==> At(s[1..], i - 1, pat)
  {
    if i + |pat| <= |s| {
      assert s[i..i + |pat|] == s[1..][i - 1..i - 1 + |pat|];
    }
  }

  /** A non-empty string of ASCII decimal digits (`str.isdigit()` on ASCII). */
  predicate IsDigits(s: string) {
    |s| > 0 && forall i :: 0 <= i < |s| ==> '0' <= s[i] <= '9'
  }

  /** `s.replace(pat, rep)`: left to right, non-overlapping occurrences. */
  function ReplaceAll(s: string, pat: string, rep: string): string
    requires |pat| > 0
  {
    if |s| < |pat| then s
    else if s[..|pat|] == pat then rep + ReplaceAll(s[|pat|..], pat, rep)
    else [s[0]] + ReplaceAll(s[1..], pat, rep)
  }

  /** A string without `pat` comes back from `replace` unchanged. */
  lemma {:induction false} ReplaceAbsent(s: string, pat: string, rep: string)
    requires |pat| > 0 && !Contains(s, pat)
    ensures ReplaceAll(s, pat, rep) == s
    decreases |s|
  {
    if |s| >= |pat| {
      assert !At(s, 0, pat);
      forall i: nat | i <= |s| - 1 ensures !At(s[1..], i, pat) {
        if At(s[1..], i, pat) {
          assert At(s, i + 1, pat);
        }
      }
      ReplaceAbsent(s[1..], pat, rep);
    }
  }

  /** No two spaces in a row. */
  predicate NoDoubleSpace(s: string) {
    forall i :: 0 <= i < |s| - 1 ==> !(s[i] == ' ' && s[i + 1] == ' ')
  }

  /** The only whitespace in `s` is the plain space. */
  predicate PlainSpacesOnly(s: string) {
    forall i :: 0 <= i < |s| ==> s[i] == ' ' || !IsSpace(s[i])
  }

  /** `" ".join(s.split())` is single-spaced, uses plain spaces only, and neither starts
      nor ends with a space. */
  lemma {:induction false} JoinWords(ws: seq<string>)
    requires Words(ws)
    ensures NoDoubleSpace(Join(" ", ws)) && PlainSpacesOnly(Join(" ", ws))
    ensures Join(" ", ws) == [] || (Join(" ", ws)[0] != ' ' && Join(" ", ws)[|Join(" ", ws)| - 1] != ' ')
  {
    if |ws| > 1 {
      var rest := Join(" ", ws[1..]);
      JoinWords(ws[1..]);
      var w := ws[0];
      var j := w + " " + rest;
      assert ws[1] != [] && NoSpace(ws[1]);
      assert rest != [] by {
        if |ws[1..]| == 1 { } else { assert |Join(" ", ws[1..])| >= |ws[1]|; }
      }
      forall i | 0 <= i < |j| - 1 ensures !(j[i] == ' ' && j[i + 1] == ' ') {
        if i < |w| - 1 {
          assert j[i] == w[i];
        } else if i == |w| - 1 {
          assert j[i] == w[i];
        } else if i == |w| {
          assert j[i + 1] == rest[0];
        } else {
          assert j[i] == rest[i - |w| - 1] && j[i + 1] == rest[i - |w|];
        }
      }
      forall i | 0 <= i < |j| ensures j[i] == ' ' || !IsSpace(j[i]) {
        if i < |w| {
          assert j[i] == w[i];
        } else if i > |w| {
          assert j[i] == rest[i - |w| - 1];
        }
      }
      assert j[0] == w[0];
      assert j[|j| - 1] == rest[|rest| - 1];
    } else if |ws| == 1 {
      assert Join(" ", ws) == ws[0];
    }
  }

  /** Both properties carry over to any infix. */
  lemma InfixKeepsSpacing(s: string, i: nat, r: string)
    requires At(s, i, r) && NoDoubleSpace(s) && PlainSpacesOnly(s)
    ensures NoDoubleSpace(r) && PlainSpacesOnly(r)
  {
    forall k | 0 <= k < |r| ensures r[k] == s[i + k] {
      assert s[i..i + |r|][k] == s[i + k];
    }
  }
}
