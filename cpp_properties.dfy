/** How the IniReader.cpp rules compare with the IniReader.h rules of IniGrammar, and
    what becomes of a parsed item when `operator<<` writes it back. */
module IniCppProperties {
  import opened IniText
  import opened IniNumber
  import opened IniExceptions
  import G = IniGrammar
  import opened IniCppGrammar
  import R = IniRender

  /** A line starting with `#` or `;` is skipped here and refused by IniReader.h. */
  lemma CommentLinesSkipped(st: ParseState, hst: G.ParseState, line: string)
    requires StateOk(st) && G.StateOk(hst)
    requires line != "" && line[0] in G.CommentMarkers
    ensures Step(st, line) == Ok(st)
    ensures G.Step(hst, line) == Err(InvalidArgument(G.CommentLineMessage))
  {
  }

  /** The numeric rule drops the text after the token here; IniReader.h checks it. */
  lemma TrailingTextAfterNumber()
    ensures NumberRule("12 abc") == Ok("12")
    ensures G.NumberRule("12 abc") == Err(Raised(Raise(IniReaderException, G.UnexpectedSymbols)))
  {
    NumberTailDropped("12", " abc");
    assert "12" + " abc" == "12 abc";
    var v := "12 abc";
    assert FindFirstOf(v, G.NumberEnds, 0) == Some(2);
    assert v[2..] == " abc";
    assert FindFirstOf(" abc", G.CommentMarkers, 0) == None;
  }

  /** An item line whose key and value are free of `=` and white space goes to the
      key check and then to the value rule, in both readers. */
  lemma PlainItemLine(key: string, value: string)
    requires '=' !in key && '=' !in value
    requires forall j :: 0 <= j < |key| ==> !IsSpaceChar(key[j])
    requires forall j :: 0 <= j < |value| ==> !IsSpaceChar(value[j])
    ensures ParseItemLine(key + "=" + value, true) ==
      if !IsLetters(key) then Err(InvalidArgument(KeyLetters))
      else match ValueRule(value) case Err(f) => Err(f) case Ok(v) => Ok(ItemView(key, v))
    ensures G.ParseItemLine(key + "=" + value, true) ==
      if !IsAlpha(key) then Err(Raised(Raise(KeyException, G.KeyLetters)))
      else match G.ValueRule(value) case Err(f) => Err(f) case Ok(pv) => Ok(G.ParsedItem(key, pv))
  {
    StrippedNoSpace(key);
    StrippedNoSpace(value);
    R.CutAtEquals(key, value);
  }

  /** Keys are letters only here, so a digit in a key is refused; IniReader.h takes
      letters and digits. */
  lemma KeyWithDigit()
    ensures ParseItemLine("a1=1", true) == Err(InvalidArgument(KeyLetters))
    ensures G.ParseItemLine("a1=1", true) == Ok(G.ParsedItem("a1", G.ParsedValue("1", "")))
  {
    var line := "a1" + "=" + "1";
    assert line == "a1=1";
    assert IsAlpha("a1") && !IsLetters("a1") by { assert !IsAlphaChar("a1"[1]); }
    OneIsNumber();
    PlainItemLine("a1", "1");
    assert G.ParseItemLine(line, true) == Ok(G.ParsedItem("a1", G.ParsedValue("1", "")));
  }

  /** A key of letters is taken. */
  lemma LetterKeyTaken()
    ensures ParseItemLine("alpha=1", true) == Ok(ItemView("alpha", "1"))
  {
    var line := "alpha" + "=" + "1";
    assert line == "alpha=1";
    assert IsLetters("alpha") by { assert "alpha" == ['a', 'l', 'p', 'h', 'a']; }
    OneIsNumber();
    PlainItemLine("alpha", "1");
  }

  /** The empty key is taken, as `all_of` over no characters is true. */
  lemma EmptyKeyTaken()
    ensures ParseItemLine("=1", true) == Ok(ItemView("", "1"))
  {
    var line := "" + "=" + "1";
    assert line == "=1";
    OneIsNumber();
    PlainItemLine("", "1");
  }

  /** `1` is read as the number `1` by both readers. */
  lemma OneIsNumber()
    ensures ValueRule("1") == Ok("1")
    ensures G.ValueRule("1") == Ok(G.ParsedValue("1", ""))
  {
    assert multiset("1")['.'] == 0;
    NumberTailDropped("1", "");
    G.NumberRuleOf("1", "");
    assert "1" + "" == "1";
  }

  /** A quoted value is stored without its quotes and its comment is dropped here. */
  lemma QuotesAndCommentDropped()
    ensures ValueRule("\"hi\" # greet") == Ok("hi")
  {
    var v := ['"'] + "hi" + ['"'] + " # greet";
    assert v == "\"hi\" # greet";
    QuotedCpp("hi", " # greet");
  }

  /** IniReader.h keeps the quotes and the comment of the same value. */
  lemma QuotesAndCommentKept()
    ensures G.ValueRule("\"hi\" # greet") == Ok(G.ParsedValue("\"hi\"", "# greet"))
  {
    var w := ['"'] + "hi" + ['"'];
    assert w == "\"hi\"";
    var t := w + " " + "# greet";
    assert t == "\"hi\" # greet";
    QuotedKeptWithComment("hi", "# greet");
  }

  /** IniReader.h on a double-quoted string, a blank and a comment. */
  lemma QuotedKeptWithComment(body: string, c: string)
    requires '"' !in body && c != [] && c[0] in G.CommentMarkers
    ensures G.ValueRule(['"'] + body + ['"'] + " " + c) == Ok(G.ParsedValue(['"'] + body + ['"'], c))
  {
    G.ParseStringCommented('"', body, " ", c);
  }

  /** A double-quoted string followed by a blank and a comment. */
  lemma QuotedCpp(body: string, tail: string)
    requires '"' !in body && |tail| >= 2 && tail[0] == ' ' && tail[1] in G.CommentMarkers
    ensures ValueRule(['"'] + body + ['"'] + tail) == Ok(body)
  {
    assert IsSpace(tail[..1]);
    StringRuleOf('"', body, tail);
  }

  /** The numbers the `dotCount` loop takes. */
  lemma NumbersTaken()
    ensures NumberRule("3.14") == Ok("3.14") && NumberRule("5.") == Ok("5.") && NumberRule(".5") == Ok(".5")
  {
    var a, b, c := "3" + "." + "14", "5" + "." + "", "" + "." + "5";
    assert a == "3.14" && b == "5." && c == ".5";
    OneDot("3", "14");
    OneDot("5", "");
    OneDot("", "5");
  }

  /** Digits with one dot among them make a number, read as it is. */
  lemma OneDot(a: string, b: string)
    requires forall j :: 0 <= j < |a| ==> IsDigitChar(a[j])
    requires forall j :: 0 <= j < |b| ==> IsDigitChar(b[j])
    requires a != [] || b != []
    ensures NumberRule(a + "." + b) == Ok(a + "." + b)
  {
    var t := a + "." + b;
    assert multiset(t) == multiset(a) + multiset{'.'} + multiset(b);
    assert '.' !in a && '.' !in b;
    assert forall j :: 0 <= j < |t| ==> IsDigitChar(t[j]) || t[j] == '.';
    assert t != ".";
    NumberTailDropped(t, "");
    assert t + "" == t;
  }

  /** A token with no cut character is the whole value. */
  lemma Uncut(v: string)
    requires forall j :: 0 <= j < |v| ==> v[j] !in G.NumberEnds
    ensures TokenLength(v) == |v| && v[..TokenLength(v)] == v
  {
  }

  /** `.` alone is caught by the first check. */
  lemma LoneDotRefused()
    ensures NumberRule(".") == Err(InvalidArgument(LoneDotMessage))
  {
    Uncut(".");
  }

  /** A second dot is caught by the second check. */
  lemma ExtraDotRefused()
    ensures NumberRule("3.1.4") == Err(InvalidArgument(ExtraDotMessage))
  {
    Uncut("3.1.4");
    ExtraDotVerdict();
  }

  /** The loop stops at the second dot of `3.1.4`. */
  lemma ExtraDotVerdict()
    ensures TokenVerdictOf("3.1.4") == ExtraDot
  {
    var t := "3.1.4";
    assert t[..1] == "3" && t[..2] == "3." && t[..4] == "3.1.";
    assert multiset("3.")['.'] == 1 by { assert "3." == "3" + "."; }
    assert multiset("3.1.")['.'] == 2 by { assert "3.1." == "3" + "." + "1" + "."; }
    assert !BadAt(t, 0) && !BadAt(t, 1) && !BadAt(t, 2) && BadAt(t, 3);
    assert FirstBad(t, 0) == Some(3);
  }

  /** A character other than a digit or a dot is caught by the third check. */
  lemma NonDigitRefused()
    ensures NumberRule("12a") == Err(InvalidArgument(NonDigitMessage))
    ensures NumberRule("-1") == Err(InvalidArgument(NonDigitMessage))
  {
    var u := "12a";
    Uncut(u);
    assert !BadAt(u, 0) && !BadAt(u, 1) && BadAt(u, 2);
    assert FirstBad(u, 0) == Some(2);
    var w := "-1";
    Uncut(w);
    assert BadAt(w, 0) && FirstBad(w, 0) == Some(0);
  }

  /** Keys of letters hold neither `=` nor white space. */
  lemma LettersPlain(key: string)
    requires IsLetters(key)
    ensures '=' !in key && forall j :: 0 <= j < |key| ==> !IsSpaceChar(key[j])
  {
  }

  /** A value read back from a text no longer than itself can only have been read as
      a non-empty number token: the quoted rule always drops the two quotes. */
  lemma ReadBackShape(x: string, y: string)
    requires |x| <= |y| && ValueRule(x) == Ok(y)
    ensures y != "" && IsNumberToken(y)
  {
  }

  /** The value rule keeps only characters of the text it reads. */
  lemma ValueChars(x: string)
    requires ValueRule(x).Ok?
    ensures forall ch :: ch in ValueRule(x).value ==> ch in x
  {
    var y := ValueRule(x).value;
    if G.IsQuote(x[0]) {
      assert y == x[1..|y| + 1];
    } else {
      assert y == x[..|y|];
    }
  }

  /** A value read back from its own text gives itself back exactly when it is a
      non-empty number token. */
  lemma ReadBackOwn(value: string)
    ensures ValueRule(Stripped(value)) == Ok(value) <==> value != "" && IsNumberToken(value)
  {
    if ValueRule(Stripped(value)) == Ok(value) {
      ReadBackShape(Stripped(value), value);
    }
    if value != "" && IsNumberToken(value) {
      StrippedNoSpace(value);
      NumberTailDropped(value, "");
      assert value + "" == value;
    }
  }

  /** The rendered line of an item with a key of letters and a value free of `=` is
      cut at its `=` and read with the value rule. */
  lemma RenderedLine(it: ItemView)
    requires IsLetters(it.key) && '=' !in it.value
    ensures ParseItemLine(RenderItem(it), true) == Ok(it) <==> ValueRule(Stripped(it.value)) == Ok(it.value)
  {
    CutRendered(it);
  }

  /** The rendered line has one `=`, right after the key. */
  lemma CutRendered(it: ItemView)
    requires IsLetters(it.key) && '=' !in it.value
    ensures var r := RenderItem(it);
      && Count(r, '=') == 1 && Stripped(r[..IndexOf(r, '=')]) == it.key
      && r[IndexOf(r, '=') + 1..] == it.value
  {
    LettersPlain(it.key);
    StrippedNoSpace(it.key);
    R.CutAtEquals(it.key, it.value);
  }

  /** The line `operator<<` writes for a parsed item parses to the same item exactly
      when its value is a non-empty number token: a string comes back without its
      quotes, so the numeric rule refuses it or mistakes it for another, and an item
      whose number token was empty comes back as `key=`. */
  lemma ItemLineRoundTrip(line: string)
    requires ParseItemLine(line, true).Ok?
    ensures var it := ParseItemLine(line, true).value;
      ParseItemLine(RenderItem(it), true) == Ok(it) <==> it.value != "" && IsNumberToken(it.value)
  {
    var it := ParseItemLine(line, true).value;
    var d := IndexOf(line, '=');
    R.OnlyOne(line, '=', d);
    R.StrippedChars(line[d + 1..]);
    ValueChars(Stripped(line[d + 1..]));
    ReadBackOwn(it.value);
    RenderedLine(it);
  }
}
