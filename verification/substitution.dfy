/** The string transform of `Model.tex_escape`: `regex.sub(lambda match:
    self.conv[match.group()], d)` with the alternation compiled from the table, and the
    per-character reference it amounts to. */
module Substitution {
  import opened Wrappers
  import opened EscapeTable

  /** Python's `re` tries the branches of an alternation left to right and takes the
      first that matches at the current position: here every branch is a literal. */
  function FirstMatch(s: string, alts: seq<string>): (r: Option<string>)
    ensures r.Some? ==> r.value in alts && r.value <= s
    ensures r.None? ==> forall a :: a in alts ==> !(a <= s)
  {
    if alts == [] then None
    else if alts[0] <= s then Some(alts[0])
    else
      assert alts == [alts[0]] + alts[1..];
      FirstMatch(s, alts[1..])
  }

  /** What one character becomes: its table entry if it is a key, itself otherwise. */
  function EscapeChar(c: char): (r: string)
    ensures |r| >= 1
    ensures IsSpecial(c) <==> |r| >= 2
  {
    ReplacementsShape();
    if IsSpecial(c) then Conv[[c]] else [c]
  }

  /** The reference definition: each character replaced by its own entry, independently
      of its neighbours, and the inserted text left alone. */
  function EscapeString(s: string): (r: string)
    ensures |r| >= |s|
    ensures r == [] <==> s == []
  {
    if s == [] then [] else EscapeChar(s[0]) + EscapeString(s[1..])
  }

  /** When every alternative is one character long, the first match at a non-empty
      position is that position's character, if it is an alternative at all. */
  lemma {:induction false} FirstMatchSingleChars(s: string, alts: seq<string>)
    requires s != []
    requires forall a :: a in alts ==> |a| == 1
    ensures FirstMatch(s, alts) == if [s[0]] in alts then Some([s[0]]) else None
  {
    if alts != [] {
      assert alts == [alts[0]] + alts[1..];
      if alts[0] <= s {
        assert alts[0] == [s[0]];
      } else {
        FirstMatchSingleChars(s, alts[1..]);
      }
    }
  }

  /** With an alternation of exactly the table's keys, the first match at a non-empty
      position is that position's character if it is special, and nothing otherwise,
      whatever the order of the alternatives. */
  lemma {:induction false} AlternationFindsSpecial(regex: seq<string>, s: string)
    requires AlternatesKeys(regex)
    requires s != []
    ensures FirstMatch(s, regex) == if IsSpecial(s[0]) then Some([s[0]]) else None
  {
    KeysShape();
    FirstMatchSingleChars(s, regex);
  }

  /** `regex.sub(lambda match: self.conv[match.group()], s)`: at each position the first
      alternative of `regex` that matches is replaced by its table entry and the scan
      resumes after the match, so the inserted text is never rescanned; where nothing
      matches, one character is copied. The result is the per-character escape, whatever
      the order of the alternatives. */
  function RegexSub(regex: seq<string>, s: string): (r: string)
    requires AlternatesKeys(regex)
    ensures r == EscapeString(s)
    decreases |s|
  {
    if s == [] then []
    else
      AlternationFindsSpecial(regex, s);
      match FirstMatch(s, regex)
      case Some(m) =>
        assert Conv[m] == EscapeChar(s[0]);
        Conv[m] + RegexSub(regex, s[|m|..])
      case None =>
        assert [s[0]] == EscapeChar(s[0]);
        [s[0]] + RegexSub(regex, s[1..])
  }

  /** A string with no key of the table in it. */
  predicate IsPlain(s: string)
  {
    forall i :: 0 <= i < |s| ==> !IsSpecial(s[i])
  }

  /** Escaping distributes over concatenation: the table's keys are single characters and
      the scan is one left-to-right pass, so no match spans the seam. */
  lemma {:induction false} EscapeStringAppend(a: string, b: string)
    ensures EscapeString(a + b) == EscapeString(a) + EscapeString(b)
  {
    if a == [] {
      assert a + b == b;
    } else {
      var ab := a + b;
      assert ab != [] && ab[0] == a[0] && ab[1..] == a[1..] + b;
      EscapeStringAppend(a[1..], b);
      calc {
        EscapeString(ab);
        EscapeChar(a[0]) + EscapeString(a[1..] + b);
        EscapeChar(a[0]) + (EscapeString(a[1..]) + EscapeString(b));
        (EscapeChar(a[0]) + EscapeString(a[1..])) + EscapeString(b);
      }
    }
  }

  /** Every replacement is at least two characters long, so the output is exactly as long
      as the input when the input is plain, and strictly longer otherwise. */
  lemma {:induction false} EscapeStringLength(s: string)
    ensures |EscapeString(s)| >= |s|
    ensures |EscapeString(s)| == |s| <==> IsPlain(s)
  {
    if s != [] {
      EscapeStringLength(s[1..]);
      assert IsPlain(s) <==> !IsSpecial(s[0]) && IsPlain(s[1..]) by {
        if !IsSpecial(s[0]) && IsPlain(s[1..]) {
          forall i | 0 <= i < |s| ensures !IsSpecial(s[i]) {
            if i > 0 { assert s[i] == s[1..][i - 1]; }
          }
        }
        if IsPlain(s) {
          forall i | 0 <= i < |s[1..]| ensures !IsSpecial(s[1..][i]) {
            assert s[1..][i] == s[i + 1];
          }
        }
      }
    }
  }

  /** Identity on plain text, and only on plain text. */
  lemma {:induction false} EscapeStringIdentity(s: string)
    ensures EscapeString(s) == s <==> IsPlain(s)
  {
    EscapeStringLength(s);
    if IsPlain(s) && s != [] {
      assert !IsSpecial(s[0]);
      assert IsPlain(s[1..]) by {
        forall i | 0 <= i < |s[1..]| ensures !IsSpecial(s[1..][i]) {
          assert s[1..][i] == s[i + 1];
        }
      }
      EscapeStringIdentity(s[1..]);
      assert s == [s[0]] + s[1..];
    }
  }

  /** No replacement text is a prefix of another one followed by more text: the texts
      differ at their second character, or at their sixth for the four `\text...{}` words. */
  lemma ReplacementsPrefixFree(c1: char, c2: char, t: string)
    requires IsSpecial(c1) && IsSpecial(c2)
    requires Conv[[c1]] <= Conv[[c2]] + t
    ensures c1 == c2
  {
    var r1, r2 := Conv[[c1]], Conv[[c2]];
    assert r1[1] == r2[1];
    if r1[1] == 't' {
      assert r1[5] == r2[5];
    }
    if r1[1] == '\\' {
      assert r1[2] == r2[2];
    }
  }

  /** The escape of the first character can be read off the front of an escaped text. */
  lemma EscapeCharHead(c1: char, c2: char, t1: string, t2: string)
    requires EscapeChar(c1) + t1 == EscapeChar(c2) + t2
    ensures c1 == c2 && t1 == t2
  {
    var e1, e2 := EscapeChar(c1), EscapeChar(c2);
    ReplacementsShape();
    assert IsSpecial('\\');
    assert e1[0] == (e1 + t1)[0] == (e2 + t2)[0] == e2[0];
    if IsSpecial(c1) && IsSpecial(c2) {
      if |e1| <= |e2| {
        assert e1 == (e2 + t2)[..|e1|];
        ReplacementsPrefixFree(c1, c2, t2);
      } else {
        assert e2 == (e1 + t1)[..|e2|];
        ReplacementsPrefixFree(c2, c1, t1);
      }
    }
    assert t1 == (e1 + t1)[|e1|..];
  }

  /** Escaping loses nothing: different strings have different escapes. */
  lemma {:induction false} EscapeStringInjective(a: string, b: string)
    requires EscapeString(a) == EscapeString(b)
    ensures a == b
  {
    if a != [] && b != [] {
      EscapeCharHead(a[0], b[0], EscapeString(a[1..]), EscapeString(b[1..]));
      EscapeStringInjective(a[1..], b[1..]);
      assert a == [a[0]] + a[1..] && b == [b[0]] + b[1..];
    }
  }

  /** The backslash of `\&` is replaced by its own entry and the ampersand by its own: the
      backslash that the first replacement inserts is not escaped again. */
  lemma BackslashAmpersand()
    ensures EscapeString("\\&") == "\\textbackslash{}\\&"
  {
  }

  lemma PercentSign()
    ensures EscapeString("100%") == "100\\%"
  {
  }

  lemma PlainWord()
    ensures EscapeString(" done") == " done"
  {
  }

  /** `100% done` becomes `100\% done`: the text around the special character is kept. */
  lemma PercentDone()
    ensures EscapeString("100%" + " done") == "100\\%" + " done"
  {
    PercentSign();
    PlainWord();
    EscapeStringAppend("100%", " done");
  }

  lemma UnderscoreAndAmpersand()
    ensures EscapeString("a_b") == "a\\_b"
    ensures EscapeString("c&d") == "c\\&d"
  {
  }

  /** A newline becomes a LaTeX line break `\\` followed by a space. */
  lemma NewlineBreak()
    ensures EscapeString("a\nb") == "a\\\\ b"
  {
  }

  /** Escaping is not idempotent: already escaped text is escaped once more. */
  lemma NotIdempotent()
    ensures EscapeString(EscapeString("&")) != EscapeString("&")
  {
    assert EscapeString("&") == "\\&";
    EscapeStringAppend("\\", "&");
  }
}
