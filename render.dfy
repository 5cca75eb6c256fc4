/** The `operator<<`s of IniReader.h on the document values: an item is written as
    `key=value`, followed by a space and the comment when it has one; a section as
    its `[name]` header, a line break and its items, one per line in `m_itemOrder`;
    a document as its sections in `m_sectionOrder`, separated by a blank line. */
module IniRender {
  import opened IniText
  import opened IniNumber
  import opened IniExceptions
  import opened IniGrammar

  /** `operator<<(std::ostream&, const Item&)`. */
  function RenderItem(it: ItemView): string {
    it.key + "=" + it.value + (if it.comment != "" then " " + it.comment else "")
  }

  /** The range-for over a section: `m_item.at(key)` for each key of `m_itemOrder`,
      repeats included. */
  function InOrder<T>(order: seq<string>, items: map<string, T>): (r: seq<T>)
    requires forall k :: k in order ==> k in items
    ensures |r| == |order|
    ensures forall i :: 0 <= i < |order| ==> r[i] == items[order[i]]
  {
    if order == [] then []
    else InOrder(order[..|order| - 1], items) + [items[order[|order| - 1]]]
  }

  function ItemTexts(its: seq<ItemView>): (r: seq<string>)
    ensures |r| == |its|
    ensures forall i :: 0 <= i < |its| ==> r[i] == RenderItem(its[i])
  {
    if its == [] then [] else ItemTexts(its[..|its| - 1]) + [RenderItem(its[|its| - 1])]
  }

  /** `operator<<(std::ostream&, const Section&)`; `std::endl` writes a line feed. */
  function RenderSection(s: SectionView): string
    requires forall k :: k in s.itemOrder ==> k in s.items
  {
    "[" + s.name + "]" + "\n" + Join(ItemTexts(InOrder(s.itemOrder, s.items)), "\n")
  }

  function SectionTexts(order: seq<string>, sections: map<string, SectionView>): (r: seq<string>)
    requires forall n :: n in order ==> n in sections
    requires forall n :: n in sections ==> forall k :: k in sections[n].itemOrder ==> k in sections[n].items
    ensures |r| == |order|
    ensures forall i :: 0 <= i < |order| ==> r[i] == RenderSection(sections[order[i]])
  {
    if order == [] then []
    else SectionTexts(order[..|order| - 1], sections) + [RenderSection(sections[order[|order| - 1]])]
  }

  /** `operator<<(std::ostream&, const INI&)`, the text `Save` writes. */
  function RenderDoc(d: Doc): string
    requires DocOk(d)
  {
    Join(SectionTexts(d.sectionOrder, d.sections), "\n\n")
  }

  /** The lines `std::getline` reads from a text: the pieces between line feeds,
      except that a final line feed ends the last line instead of starting an
      empty one, so the empty text has no lines at all. */
  function FileLines(text: string): (r: seq<string>)
    ensures forall k :: 0 <= k < |r| ==> '\n' !in r[k]
    ensures r == [] <==> text == ""
  {
    var pieces := Split(text, '\n');
    if pieces[|pieces| - 1] == "" then pieces[..|pieces| - 1] else pieces
  }

  /** The pieces between line feeds are the lines `getline` reads, followed by an
      empty piece exactly when the text ends in a line feed or is empty. */
  lemma FileLinesPieces(text: string)
    ensures var p := Split(text, '\n');
      FileLines(text) + (if p[|p| - 1] == "" then [""] else []) == p
  {
    var p := Split(text, '\n');
    if p[|p| - 1] == "" {
      assert p[..|p| - 1] + [""] == p;
    }
  }

  /** `getline` over lines joined by line feeds gives the lines back, except for a
      final empty line, which the last line feed ends. */
  lemma FileLinesJoin(parts: seq<string>)
    requires forall k :: 0 <= k < |parts| ==> '\n' !in parts[k]
    ensures FileLines(Join(parts, "\n"))
      == if parts != [] && parts[|parts| - 1] == "" then parts[..|parts| - 1] else parts
  {
    var text := Join(parts, "\n");
    FileLinesPieces(text);
    if parts == [] {
      assert FindFirstOf(text, {'\n'}, 0).None?;
    } else {
      SplitJoin(parts, '\n');
    }
  }

  /** Parsing the lines `getline` reads from a text is parsing its pieces between
      line feeds: the only difference, a final empty piece, is a line `Parse` skips. */
  lemma ParseFileLines(text: string)
    ensures ParseLines(FileLines(text)) == ParseLines(Split(text, '\n'))
  {
    var pieces := Split(text, '\n');
    if pieces[|pieces| - 1] == "" {
      var init := pieces[..|pieces| - 1];
      assert pieces == init + [""] + [];
      RunSkipsEmpty(Initial, init, []);
      assert init + [] == init;
    }
  }

  /** The text after `=` on a rendered item line. */
  function ValueText(pv: ParsedValue): string {
    if pv.comment != "" then pv.value + " " + pv.comment else pv.value
  }

  lemma RenderItemSplits(key: string, pv: ParsedValue)
    ensures RenderItem(ItemOf(key, pv)) == key + "=" + ValueText(pv)
  {
  }

  /** A string holding `c` exactly once, at `d`, has no other `c`. */
  lemma OnlyOne(s: string, c: char, d: nat)
    requires d < |s| && s[d] == c && Count(s, c) == 1
    ensures c !in s[..d] && c !in s[d + 1..]
  {
    assert s == s[..d] + [c] + s[d + 1..];
    assert multiset(s) == multiset(s[..d]) + multiset{c} + multiset(s[d + 1..]);
  }

  /** The comment the value rules keep is non-empty, starts with a comment marker
      and ends where the value ends. */
  lemma CommentTail(v: string, from: nat, c: string)
    requires from <= |v| && VerifyComment(v[from..]) == Ok(c)
    ensures c != [] && c[0] in CommentMarkers && c[|c| - 1] == v[|v| - 1]
  {
  }

  /** The comment is made of characters of the value. */
  lemma CommentChars(v: string, from: nat, c: string)
    requires from <= |v| && VerifyComment(v[from..]) == Ok(c)
    ensures forall ch :: ch in c ==> ch in v
  {
    assert v[from..][|v[from..]| - |c|..] == v[|v| - |c|..];
  }

  /** A value and a comment written back with a space between need no stripping. */
  lemma WrittenBack(w: string, c: string)
    requires w != [] && c != [] && !IsSpaceChar(w[0]) && !IsSpaceChar(c[|c| - 1])
    ensures Stripped(w + " " + c) == w + " " + c
  {
    var t := w + " " + c;
    assert t[0] == w[0] && t[|t| - 1] == c[|c| - 1];
    StrippedTrimmed(t);
  }

  /** A string of two or more characters that starts and ends with `q`. */
  lemma Framed(w: string, q: char)
    requires 2 <= |w| && w[0] == q && w[|w| - 1] == q
    ensures w == [q] + w[1..|w| - 1] + [q]
  {
  }

  /** A quoted value `w` followed by a comment `c`, written back with one space
      between, is parsed to the same value and comment. */
  lemma QuotedCommented(w: string, c: string)
    requires 2 <= |w| && IsQuote(w[0]) && w[|w| - 1] == w[0] && w[0] !in w[1..|w| - 1]
    requires c != [] && c[0] in CommentMarkers && !IsSpaceChar(c[|c| - 1])
    ensures Stripped(w + " " + c) == w + " " + c
    ensures ParseString(w + " " + c) == Ok(ParsedValue(w, c))
  {
    var q := w[0];
    Framed(w, q);
    WrittenBack(w, c);
    ParseStringCommented(q, w[1..|w| - 1], " ", c);
  }

  /** The quoted rule: the value and the comment written back give the same result. */
  lemma QuotedRoundTrip(v: string)
    requires v != [] && IsQuote(v[0]) && !IsSpaceChar(v[|v| - 1]) && ParseString(v).Ok?
    ensures var t := Stripped(ValueText(ParseString(v).value));
      t != [] && t[0] == v[0] && ParseString(t) == ParseString(v)
  {
    if ParseString(v).value.comment == "" {
      QuotedBare(v);
    } else {
      QuotedWithComment(v);
    }
  }

  /** A quoted value without a comment is written back as it was read. */
  lemma QuotedBare(v: string)
    requires v != [] && !IsSpaceChar(v[|v| - 1]) && ParseString(v).Ok? && ParseString(v).value.comment == ""
    ensures Stripped(ValueText(ParseString(v).value)) == v
  {
    assert ParseString(v).value.value == v;
    StrippedTrimmed(v);
  }

  /** A quoted value with a comment is written back as the quoted part, a space
      and the comment, which reads the same. */
  lemma QuotedWithComment(v: string)
    requires v != [] && IsQuote(v[0]) && !IsSpaceChar(v[|v| - 1])
    requires ParseString(v).Ok? && ParseString(v).value.comment != ""
    ensures var t := Stripped(ValueText(ParseString(v).value));
      t != [] && t[0] == v[0] && ParseString(t) == ParseString(v)
  {
    var pv := ParseString(v).value;
    QuotedCut(v, pv.value, pv.comment);
  }

  /** The quoted part `w` and the comment `c` that `ParseString` cut from `v`,
      written back with a space between, read the same. */
  lemma QuotedCut(v: string, w: string, c: string)
    requires v != [] && IsQuote(v[0]) && !IsSpaceChar(v[|v| - 1])
    requires ParseString(v) == Ok(ParsedValue(w, c)) && c != ""
    ensures var t := w + " " + c;
      t[0] == v[0] && Stripped(t) == t && ParseString(t) == ParseString(v)
  {
    QuotedParts(v);
    QuotedFromParse(v, w, c);
  }

  /** What `ParseString` tells of a quoted value that carries a comment. */
  lemma QuotedParts(v: string)
    requires v != [] && ParseString(v).Ok? && ParseString(v).value.comment != ""
    ensures var w := ParseString(v).value.value;
      && 2 <= |w| <= |v| && w == v[..|w|] && w[|w| - 1] == v[0] && v[0] !in w[1..|w| - 1]
      && VerifyComment(v[|w|..]) == Ok(ParseString(v).value.comment)
  {
  }

  /** The quoted value and the comment `ParseString` cut from `v`, written back. */
  lemma QuotedFromParse(v: string, w: string, c: string)
    requires 2 <= |w| <= |v| && w == v[..|w|] && w[|w| - 1] == v[0] && v[0] !in w[1..|w| - 1]
    requires IsQuote(v[0]) && !IsSpaceChar(v[|v| - 1]) && VerifyComment(v[|w|..]) == Ok(c)
    ensures var t := w + " " + c;
      t[0] == v[0] && Stripped(t) == t && ParseString(t) == Ok(ParsedValue(w, c))
  {
    assert w[0] == v[0];
    CommentTail(v, |w|, c);
    QuotedCommented(w, c);
  }

  /** A numeric token followed by a comment, written back with one space between. */
  lemma NumberCommentedToken(w: string, c: string)
    requires IsNumberToken(w) && w != [] && !IsSpaceChar(w[0])
    requires c != [] && c[0] in CommentMarkers && !IsSpaceChar(c[|c| - 1])
    ensures Stripped(w + " " + c) == w + " " + c
    ensures NumberRule(w + " " + c) == Ok(ParsedValue(w, c))
  {
    WrittenBack(w, c);
    assert w + " " + c == w + (" " + c);
    VerifyCommentOf(" ", c);
    NumberRuleOf(w, " " + c);
  }

  /** A comment alone, when the token before it was empty: the space is stripped. */
  lemma NumberCommentOnly(c: string)
    requires IsNumberToken("") && c != [] && c[0] in CommentMarkers && !IsSpaceChar(c[|c| - 1])
    ensures Stripped(" " + c) == c
    ensures NumberRule(c) == Ok(ParsedValue("", c))
  {
    assert " " + c == " " + c + "";
    StrippedPadded(" ", c, "");
    VerifyCommentOf("", c);
    assert "" + c == c;
    NumberRuleOf("", c);
  }

  /** The numeric rule: the token and the comment written back give the same result. */
  lemma NumberRoundTrip(v: string)
    requires v != [] && !IsQuote(v[0]) && !IsSpaceChar(v[0]) && !IsSpaceChar(v[|v| - 1])
    requires NumberRule(v).Ok?
    ensures var t := Stripped(ValueText(NumberRule(v).value));
      t != [] && !IsQuote(t[0]) && NumberRule(t) == NumberRule(v)
  {
    var pv := NumberRule(v).value;
    var w, c := pv.value, pv.comment;
    if |w| == |v| {
      assert w == v && ValueText(pv) == v;
      StrippedTrimmed(v);
    } else {
      CommentTail(v, |w|, c);
      if w != [] {
        assert w[0] == v[0];
        assert ValueText(pv) == w + " " + c;
        NumberCommentedToken(w, c);
      } else {
        assert ValueText(pv) == " " + c;
        NumberCommentOnly(c);
      }
    }
  }

  /** Writing a parsed value back adds nothing but a space to the characters of the
      value it came from. */
  lemma ValueTextChars(v: string)
    requires ValueRule(v).Ok?
    ensures forall ch :: ch in ValueText(ValueRule(v).value) ==> ch in v || ch == ' '
  {
    var pv := ValueRule(v).value;
    assert forall ch :: ch in pv.value ==> ch in v;
    if pv.comment != "" {
      CommentChars(v, |pv.value|, pv.comment);
    }
  }

  /** A value the value rule accepts, written back as `ValueText` and stripped, is
      accepted again with the same outcome. */
  lemma ValueRoundTrip(v: string)
    requires ValueRule(v).Ok?
    requires v != [] ==> !IsSpaceChar(v[0]) && !IsSpaceChar(v[|v| - 1])
    ensures ValueRule(Stripped(ValueText(ValueRule(v).value))) == ValueRule(v)
  {
    if IsQuote(v[0]) {
      QuotedRoundTrip(v);
    } else {
      NumberRoundTrip(v);
    }
  }

  /** Stripping keeps only characters of its argument. */
  lemma StrippedChars(s: string)
    ensures forall ch :: ch in Stripped(s) ==> ch in s
  {
    var r := Stripped(s);
    forall ch | ch in r ensures ch in s {
      var j :| 0 <= j < |r| && r[j] == ch;
      assert s[LeadLen(s) + j] == ch;
    }
  }

  /** A key `IsAlpha` accepts holds no white space. */
  lemma AlnumNoSpace(key: string)
    requires IsAlpha(key)
    ensures forall j :: 0 <= j < |key| ==> !IsSpaceChar(key[j])
  {
  }

  /** A key and a value text free of `=`, joined by one `=`, are cut back at it. */
  lemma CutAtEquals(key: string, vt: string)
    requires '=' !in key && '=' !in vt
    ensures var r := key + "=" + vt;
      Count(r, '=') == 1 && IndexOf(r, '=') == |key| && r[..|key|] == key && r[|key| + 1..] == vt
  {
    var r := key + "=" + vt;
    assert multiset(r) == multiset(key) + multiset{'='} + multiset(vt);
    assert r[|key|] == '=' && r[..|key|] == key && r[|key| + 1..] == vt;
  }

  /** An item line, once parsed, is written back by `operator<<` as a line that
      parses to the same key, value and comment. */
  lemma ItemLineRoundTrip(line: string)
    requires ParseItemLine(line, true).Ok?
    ensures var it := ParseItemLine(line, true).value;
      ParseItemLine(RenderItem(ItemOf(it.key, it.parsed)), true) == Ok(it)
  {
    var it := ParseItemLine(line, true).value;
    ItemLineFacts(line);
    RenderedItemParses(it.key, it.parsed);
  }

  /** What a parsed item line tells of its key and of its value written back. */
  lemma ItemLineFacts(line: string)
    requires ParseItemLine(line, true).Ok?
    ensures var it := ParseItemLine(line, true).value;
      && IsAlpha(it.key) && '=' !in it.key && '=' !in ValueText(it.parsed)
      && ValueRule(Stripped(ValueText(it.parsed))) == Ok(it.parsed)
  {
    var d := IndexOf(line, '=');
    OnlyOne(line, '=', d);
    StrippedChars(line[..d]);
    var raw := line[d + 1..];
    StrippedChars(raw);
    ValueFacts(Stripped(raw));
  }

  /** A value read from text free of `=` is written back free of `=`, and reads back
      to itself. */
  lemma ValueFacts(v: string)
    requires ValueRule(v).Ok? && '=' !in v
    requires v != [] ==> !IsSpaceChar(v[0]) && !IsSpaceChar(v[|v| - 1])
    ensures '=' !in ValueText(ValueRule(v).value)
    ensures ValueRule(Stripped(ValueText(ValueRule(v).value))) == ValueRule(v)
  {
    ValueRoundTrip(v);
    ValueTextChars(v);
  }

  /** The line written for a key and a value that read each other back. */
  lemma RenderedItemParses(key: string, pv: ParsedValue)
    requires IsAlpha(key) && '=' !in key && '=' !in ValueText(pv)
    requires ValueRule(Stripped(ValueText(pv))) == Ok(pv)
    ensures ParseItemLine(RenderItem(ItemOf(key, pv)), true) == Ok(ParsedItem(key, pv))
  {
    AlnumNoSpace(key);
    StrippedNoSpace(key);
    RenderItemSplits(key, pv);
    CutAtEquals(key, ValueText(pv));
  }
}
