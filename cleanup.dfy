/** The two string clean-ups applied to model output before it is executed or voted on:
    `postprocess` (closing the gap in `> =`, `< =`, `! =`) and `process_duplication`
    (strip, then cut before the first comment opener). */
module Cleanup {
  import opened Text

  /** The operator `c` followed by a space and `=`, e.g. `> =`. */
  function Gap(c: char): string {
    [c, ' ', '=']
  }

  /** `s.replace(c + " =", c + "=")` */
  function Glue(s: string, c: char): string {
    ReplaceAll(s, Gap(c), [c, '='])
  }

  /** `postprocess(query)` */
  function Postprocess(q: string): string {
    Glue(Glue(Glue(q, '>'), '<'), '!')
  }

  /** `process_duplication(sql)`: strip, then keep what precedes the first comment
      opener. The result has no comment opener, no leading whitespace, and is a
      prefix of the stripped input. */
  function ProcessDuplication(sql: string): (r: string)
    ensures !Contains(r, "/*")
    ensures r == [] || !IsSpace(r[0])
    ensures |r| <= |Strip(sql)| && r == Strip(sql)[..|r|]
    ensures !Contains(Strip(sql), "/*") ==> r == Strip(sql)
  {
    CutAt(Strip(sql), "/*")
  }

  // ---------------------------------------------------------------------------
  // Properties of postprocess

  /** No `d`, space, `=` anywhere in `s`. */
  predicate NoGap(s: string, d: char) {
    forall i :: 0 <= i < |s| - 2 ==> !(s[i] == d && s[i + 1] == ' ' && s[i + 2] == '=')
  }

  lemma NoGapIsAbsent(s: string, d: char)
    ensures NoGap(s, d) <==> !Contains(s, Gap(d))
  {
    if NoGap(s, d) {
      forall i: nat | i <= |s| ensures !At(s, i, Gap(d)) {
        if i + 3 <= |s| {
          assert s[i..i + 3][0] == s[i] && s[i..i + 3][1] == s[i + 1] && s[i..i + 3][2] == s[i + 2];
        }
      }
    } else {
      var i :| 0 <= i < |s| - 2 && s[i] == d && s[i + 1] == ' ' && s[i + 2] == '=';
      assert At(s, i, Gap(d));
    }
  }

  /** Gluing keeps the first character, and the second one when the first does not
      start an occurrence. */
  lemma GlueFront(s: string, c: char)
    ensures |Glue(s, c)| == 0 <==> |s| == 0
    ensures |s| > 0 ==> Glue(s, c)[0] == s[0]
    ensures |s| > 1 && s[0] != c ==> |Glue(s, c)| > 1 && Glue(s, c)[1] == s[1]
  {
    if |s| > 1 && s[0] != c {
      GlueFront(s[1..], c);
      if |s| >= 3 {
        assert s[..3] != Gap(c);
      }
    }
  }

  /** Away from an occurrence, gluing moves past one character. */
  lemma GlueStep(s: string, c: char)
    requires |s| > 0 && (|s| < 3 || s[..3] != Gap(c))
    ensures Glue(s, c) == [s[0]] + Glue(s[1..], c)
  {
  }

  /** After gluing, `c + " ="` no longer occurs. */
  lemma {:induction false} GlueRemoves(s: string, c: char)
    requires c != ' ' && c != '='
    ensures NoGap(Glue(s, c), c)
    decreases |s|
  {
    var r := Glue(s, c);
    if |s| < 3 {
    } else if s[..3] == Gap(c) {
      var t := Glue(s[3..], c);
      GlueRemoves(s[3..], c);
      assert r == [c, '='] + t;
      forall i | 2 <= i < |r| - 2 ensures !(r[i] == c && r[i + 1] == ' ' && r[i + 2] == '=') {
        assert r[i] == t[i - 2] && r[i + 1] == t[i - 1] && r[i + 2] == t[i];
      }
    } else {
      var t := Glue(s[1..], c);
      GlueStep(s, c);
      GlueRemoves(s[1..], c);
      GlueFront(s[1..], c);
      if s[0] == c && |r| > 2 && r[1] == ' ' {
        GlueFront(s[1..], c);
        assert r[2] == t[1] == s[2];
        assert s[..3] == [s[0], s[1], s[2]];
      }
      forall i | 1 <= i < |r| - 2 ensures !(r[i] == c && r[i + 1] == ' ' && r[i + 2] == '=') {
        assert r[i] == t[i - 1] && r[i + 1] == t[i] && r[i + 2] == t[i + 1];
      }
    }
  }

  /** Gluing one operator never creates a gap after another. */
  lemma {:induction false} GlueKeepsAbsent(s: string, c: char, d: char)
    requires c != ' ' && c != '=' && NoGap(s, d)
    ensures NoGap(Glue(s, c), d)
    decreases |s|
  {
    var r := Glue(s, c);
    if |s| < 3 {
    } else if s[..3] == Gap(c) {
      var t := Glue(s[3..], c);
      GlueKeepsAbsent(s[3..], c, d);
      assert r == [c, '='] + t;
      GlueFront(s[3..], c);
      if d == '=' && |r| > 3 && r[2] == ' ' {
        assert s[2] == s[..3][2] == '=';
        assert r[2] == t[0] == s[3];
        assert r[3] == t[1] == s[4];
      }
      forall i | 2 <= i < |r| - 2 ensures !(r[i] == d && r[i + 1] == ' ' && r[i + 2] == '=') {
        assert r[i] == t[i - 2] && r[i + 1] == t[i - 1] && r[i + 2] == t[i];
      }
    } else {
      var t := Glue(s[1..], c);
      GlueStep(s, c);
      GlueKeepsAbsent(s[1..], c, d);
      GlueFront(s[1..], c);
      if |r| > 2 && r[1] == ' ' {
        assert r[2] == t[1] == s[2];
      }
      forall i | 1 <= i < |r| - 2 ensures !(r[i] == d && r[i + 1] == ' ' && r[i + 2] == '=') {
        assert r[i] == t[i - 1] && r[i + 1] == t[i] && r[i + 2] == t[i + 1];
      }
    }
  }

  /** `postprocess` leaves none of `> =`, `< =`, `! =` behind. */
  lemma PostprocessCloses(q: string)
    ensures !Contains(Postprocess(q), "> =")
    ensures !Contains(Postprocess(q), "< =")
    ensures !Contains(Postprocess(q), "! =")
  {
    var a := Glue(q, '>');
    var b := Glue(a, '<');
    var r := Glue(b, '!');
    GlueRemoves(q, '>');
    GlueKeepsAbsent(a, '<', '>');
    GlueRemoves(a, '<');
    GlueKeepsAbsent(b, '!', '>');
    GlueKeepsAbsent(b, '!', '<');
    GlueRemoves(b, '!');
    NoGapIsAbsent(r, '>');
    NoGapIsAbsent(r, '<');
    NoGapIsAbsent(r, '!');
  }

  /** A query with none of the three gaps comes back unchanged. */
  lemma PostprocessIdentity(q: string)
    requires !Contains(q, "> =") && !Contains(q, "< =") && !Contains(q, "! =")
    ensures Postprocess(q) == q
  {
    ReplaceAbsent(q, Gap('>'), ">=");
    ReplaceAbsent(q, Gap('<'), "<=");
    ReplaceAbsent(q, Gap('!'), "!=");
  }
}
