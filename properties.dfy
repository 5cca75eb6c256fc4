/** What the line rules of IniReader.h do with particular lines, and how a single
    line changes the parse state: the header, quoted and numeric cases the reader's
    design calls out, duplicate keys, repeated headers, orphan items and the order of
    the item checks. */
module IniProperties {
  import opened IniText
  import opened IniNumber
  import opened IniExceptions
  import opened IniGrammar

  /** A line that ends with `]` names the text between the brackets, which is taken
      exactly when `IsAlpha` accepts it: `[ a ]` is refused for its spaces, `[]`
      opens the section with the empty name. */
  lemma ClosedHeaderVerdict(name: string)
    ensures SectionHeader("[" + name + "]") ==
      if IsAlpha(name) then Ok(name) else Err(Raised(Raise(SectionException, SectionLetters)))
  {
    var line := "[" + name + "]";
    assert line[1..|line| - 1] == name;
    assert SectionHeader(line) == ClosedHeader(line);
  }

  /** After the first `]` the rest of a header line is verified as a comment before
      the name is looked at: text that is not a comment fails with the comment
      check's own failure, whatever the name. */
  lemma HeaderTailRefused(name: string, tail: string)
    requires ']' !in name && tail != [] && tail[|tail| - 1] != ']' && VerifyComment(tail).Err?
    ensures SectionHeader("[" + name + "]" + tail) == Err(VerifyComment(tail).failure)
  {
    var line := "[" + name + "]" + tail;
    assert line[0] == '[' && line[|line| - 1] != ']' by {
      assert line[|line| - 1] == tail[|tail| - 1];
    }
    assert FindFirstOf(line, {']'}, 0) == Some(|name| + 1) by {
      forall j | 0 <= j < |name| + 1 ensures line[j] != ']' {
        if j > 0 { assert line[j] == name[j - 1]; }
      }
      assert line[|name| + 1] == ']';
    }
    assert line[|name| + 2..] == tail;
    assert SectionHeader(line) == CommentedHeader(line, |name| + 1);
  }

  /** Blanks after a header with no comment marker reach `substr(npos)`, which is
      out of range: `[abc]  ` is not a header the reader takes. */
  lemma BlankAfterHeader(name: string, pad: string)
    requires ']' !in name && pad != [] && IsSpace(pad)
    ensures SectionHeader("[" + name + "]" + pad) == Err(OutOfRange)
  {
    assert IsSpaceChar(pad[|pad| - 1]);
    HeaderTailRefused(name, pad);
  }

  /** Digits with one dot anywhere make a number: `3.14`, `5.` and `.5` are taken. */
  lemma OneDotNumber(a: string, b: string)
    requires forall j :: 0 <= j < |a| ==> IsDigitChar(a[j])
    requires forall j :: 0 <= j < |b| ==> IsDigitChar(b[j])
    ensures NumberRule(a + "." + b) == (
      if a == [] && b == [] then Err(Raised(Raise(ValueException, WrongNumber)))
      else Ok(ParsedValue(a + "." + b, "")))
  {
    var t := a + "." + b;
    assert multiset(t) == multiset(a) + multiset{'.'} + multiset(b);
    assert '.' !in a && '.' !in b by {
      assert forall j :: 0 <= j < |a| ==> a[j] != '.';
      assert forall j :: 0 <= j < |b| ==> b[j] != '.';
    }
    forall j | 0 <= j < |t| ensures (IsDigitChar(t[j]) || t[j] == '.') && t[j] !in NumberEnds {
      if j < |a| { assert t[j] == a[j]; }
      else if j > |a| { assert t[j] == b[j - |a| - 1]; }
    }
  }

  /** There is no sign: a token that starts with `-` is a wrong number. */
  lemma SignRefused(t: string)
    requires forall j :: 0 <= j < |t| ==> t[j] !in NumberEnds
    ensures NumberRule("-" + t) == Err(Raised(Raise(ValueException, WrongNumber)))
  {
    var v := "-" + t;
    assert !IsDigitChar(v[0]);
    forall j | 0 <= j < |v| ensures v[j] !in NumberEnds {
      if j > 0 { assert v[j] == t[j - 1]; }
    }
  }

  /** A value that is only a comment passes the numeric rule with an empty token:
      `key = # note` files an item whose value is empty. */
  lemma CommentOnlyValue(c: string)
    requires c != [] && c[0] in CommentMarkers
    ensures NumberRule(c) == Ok(ParsedValue("", c))
  {
    assert VerifyComment(c) == Ok(c) by {
      VerifyCommentOf("", c);
      assert "" + c == c;
    }
    assert IsNumberToken("") by {
      assert multiset("") == multiset{};
    }
    assert NumberRule("" + c) == Ok(ParsedValue("", c)) by {
      NumberRuleOf("", c);
    }
    assert "" + c == c;
  }

  /** A line the item rule accepts is not empty and starts with neither a comment
      marker nor `[`, so `Parse` hands it to `ParseItem`. */
  lemma ItemLineIsItem(line: string)
    requires ParseItemLine(line, true).Ok?
    ensures line != "" && line[0] !in CommentMarkers && line[0] != '['
  {
    var d := IndexOf(line, '=');
    if d > 0 && !IsSpaceChar(line[0]) {
      var s := line[..d];
      assert s[0] == line[0];
      assert LeadLen(s) == 0;
      assert !IsSpace(s);
      var key := Stripped(s);
      assert key[0] == line[0];
      assert IsAlnumChar(key[0]);
    }
  }

  /** An item line with zero or several `=` is an `ItemException`, whether or not a
      section is active: the count is checked first. */
  lemma EqualsCountFirst(st: ParseState, line: string)
    requires StateOk(st)
    requires line != "" && line[0] !in CommentMarkers && line[0] != '[' && Count(line, '=') != 1
    ensures Step(st, line) == Err(Raised(Raise(ItemException, EqualsCount)))
  {
    assert Step(st, line) == ItemStep(st, line);
  }

  /** A well-formed item line before any header fails: global items are refused. */
  lemma OrphanItem(d: Doc, line: string)
    requires ParseItemLine(line, true).Ok?
    ensures Step(ParseState(d, None), line) == Err(Raised(Raise(IniReaderException, GlobalItem)))
  {
    ItemLineIsItem(line);
    assert Step(ParseState(d, None), line) == ItemStep(ParseState(d, None), line);
  }

  /** `Parse` calls `Add` without `CheckKey`: an item line whose key the active
      section already holds appends the key to `m_itemOrder` again, and the item
      filed first stays. */
  lemma DuplicateKeyAppended(st: ParseState, line: string)
    requires StateOk(st) && st.active.Some? && ParseItemLine(line, true).Ok?
    requires ParseItemLine(line, true).value.key in st.doc.sections[st.active.value].items
    ensures var n := st.active.value;
      var s := st.doc.sections[n];
      var key := ParseItemLine(line, true).value.key;
      Step(st, line) == Ok(ParseState(Doc(st.doc.sectionOrder, st.doc.sections[n := s.(itemOrder := s.itemOrder + [key])]), st.active))
  {
    ItemLineIsItem(line);
    assert Step(st, line) == ItemStep(st, line);
  }

  /** A header naming a section already filed appends the name to `m_sectionOrder`
      again, keeps every section as it was, and makes the old section active. */
  lemma RepeatedHeader(st: ParseState, name: string)
    requires StateOk(st) && IsAlpha(name) && name in st.doc.sections
    ensures Step(st, "[" + name + "]") == Ok(ParseState(Doc(st.doc.sectionOrder + [name], st.doc.sections), Some(name)))
  {
    SectionHeaderOf(name, "");
    assert "[" + name + "]" + "" == "[" + name + "]";
  }
}
