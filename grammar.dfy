/** The line grammar of IniReader.h as functions: comment verification, the quoted
    and the numeric value rules, section headers, item lines, and the document
    values a parse builds, line after line. The classes of IniDocument are proved to
    follow `Run`. */
module IniGrammar {
  import opened IniText
  import opened IniNumber
  import opened IniExceptions

  const CommentMarkers: set<char> := {'#', ';'}

  /** The characters `ParseNumber` cuts a token at. */
  const NumberEnds: set<char> := {'#', ';', ' '}

  predicate IsQuote(c: char) { c == '"' || c == '\'' }

  // The messages the parser throws with.
  /** The bytes of this literal in IniReader.h are `c3 90 c2 a1` before `omments`:
      read as UTF-8 that is U+00D0 followed by U+00A1, a doubly encoded Cyrillic
      letter, and the message keeps those two characters as the file holds them. */
  const CommentLineMessage := "\U{D0}\U{A1}omments are not supported on individual lines"
  const UnterminatedSection := "Unterminated section"
  const SectionLetters := "Section must contain only letters"
  const EqualsCount := "Syntax error. Item should contain only one '='"
  const GlobalItem := "Global variables are not supported"
  const KeyLetters := "The key must contain only letters"
  const UnterminatedString := "Mismatched or unterminated bracket"
  const WrongNumber := "Wrong number"
  const UnexpectedSymbols := "Syntax Error. Unexpected symbols"

  /** `ParsedValue`: the raw value as it will be stored and the comment after it. */
  datatype ParsedValue = ParsedValue(value: string, comment: string)

  /** What an item line yields: its key and its parsed value. */
  datatype ParsedItem = ParsedItem(key: string, parsed: ParsedValue)

  /** The value of an `Item`: key, raw value and comment ("" when it has none). */
  datatype ItemView = ItemView(key: string, value: string, comment: string)

  /** The value of a `Section`: name, `m_itemOrder` and `m_item`. */
  datatype SectionView = SectionView(name: string, itemOrder: seq<string>, items: map<string, ItemView>)

  /** The value of an `INI`: `m_sectionOrder` and `m_section`. */
  datatype Doc = Doc(sectionOrder: seq<string>, sections: map<string, SectionView>)

  /** The parser's state between lines: the document and the name of the section
      `activeSection` points to. */
  datatype ParseState = ParseState(doc: Doc, active: Option<string>)

  const Initial := ParseState(Doc([], map[]), None)

  /** `VerifyComent`: the text before the first `#` or `;` must be blank, and the
      comment is the rest from that marker on. With no marker the whole text is
      checked and then `substr(npos)` is out of range. */
  function VerifyComment(s: string): (r: Result<string>)
    ensures r.Ok? <==> exists i :: 0 <= i < |s| && s[i] in CommentMarkers && IsSpace(s[..i])
    ensures r.Ok? ==> var c := r.value;
      && 0 < |c| <= |s| && c == s[|s| - |c|..] && c[0] in CommentMarkers
      && IsSpace(s[..|s| - |c|])
    ensures r == Err(OutOfRange) <==> IsSpace(s)
    ensures r.Err? && !IsSpace(s) ==> r == Err(Raised(Raise(IniReaderException, UnexpectedSymbols)))
  {
    match FindFirstOf(s, CommentMarkers, 0)
    case None =>
      if IsSpace(s) then Err(OutOfRange)
      else Err(Raised(Raise(IniReaderException, UnexpectedSymbols)))
    case Some(i) =>
      var blank := s[..i];
      assert IsSpace(s) ==> IsSpaceChar(s[i]);
      forall j | i < j <= |s| ensures !IsSpace(s[..j]) {
        assert s[..j][i] == s[i];
      }
      if IsSpace(blank) then Ok(s[i..])
      else Err(Raised(Raise(IniReaderException, UnexpectedSymbols)))
  }

  /** `ParseString`: the raw value runs from the opening quote up to and including the
      next occurrence of the same quote character; what follows it, if anything, must
      be a comment. */
  function ParseString(v: string): (r: Result<ParsedValue>)
    requires |v| > 0
    ensures r == Err(Raised(Raise(ValueException, UnterminatedString))) <==> v[0] !in v[1..]
    ensures r.Ok? ==> var w := r.value.value;
      && 2 <= |w| <= |v| && w == v[..|w|] && w[|w| - 1] == v[0] && v[0] !in w[1..|w| - 1]
    ensures r.Ok? ==> (r.value.comment == "" <==> r.value.value == v)
    ensures r.Ok? && r.value.comment != "" ==>
      VerifyComment(v[|r.value.value|..]) == Ok(r.value.comment)
    ensures r.Err? && v[0] in v[1..] ==>
      r.failure in {Raised(Raise(IniReaderException, UnexpectedSymbols)), OutOfRange}
  {
    var q := v[0];
    match FindFirstOf(v, {q}, 1)
    case None =>
      assert forall j :: 0 <= j < |v[1..]| ==> v[1..][j] == v[j + 1];
      Err(Raised(Raise(ValueException, UnterminatedString)))
    case Some(i) =>
      assert v[1..][i - 1] == q;
      assert v[..i + 1][1..i] == v[1..i];
      assert i == |v| - 1 ==> v[..|v|] == v;
      QuoteCut(v, i)
  }

  /** The end of `ParseString` once the closing quote is found at `i`: the value is
      kept up to it, and a rest after it must be a comment. */
  function QuoteCut(v: string, i: nat): (r: Result<ParsedValue>)
    requires 0 < i < |v|
    ensures r.Ok? ==> r.value.value == v[..i + 1]
    ensures r.Ok? ==> (r.value.comment == "" <==> i == |v| - 1)
    ensures r.Ok? && i < |v| - 1 ==> VerifyComment(v[i + 1..]) == Ok(r.value.comment)
    ensures r.Err? ==> r.failure in {Raised(Raise(IniReaderException, UnexpectedSymbols)), OutOfRange}
    ensures r.Err? <==> i < |v| - 1 && VerifyComment(v[i + 1..]).Err?
    ensures r.Err? ==> r == Err(VerifyComment(v[i + 1..]).failure)
    ensures r.Err? && !IsSpaceChar(v[|v| - 1]) ==> r.failure == Raised(Raise(IniReaderException, UnexpectedSymbols))
  {
    assert i < |v| - 1 ==> v[i + 1..][|v| - i - 2] == v[|v| - 1];
    if i == |v| - 1 then Ok(ParsedValue(v, ""))
    else
      match VerifyComment(v[i + 1..])
      case Err(f) => Err(f)
      case Ok(c) => Ok(ParsedValue(v[..i + 1], c))
  }

  /** The numeric rule as the source applies it: cut the token at the first `#`, `;`
      or space, verify the rest as a comment, then check the token's characters. */
  function NumberRule(v: string): (r: Result<ParsedValue>)
    ensures r.Ok? ==> var t := r.value.value;
      && IsNumberToken(t) && |t| <= |v| && t == v[..|t|]
      && (forall j :: 0 <= j < |t| ==> t[j] !in NumberEnds)
      && (|t| < |v| ==> v[|t|] in NumberEnds && VerifyComment(v[|t|..]) == Ok(r.value.comment))
      && (|t| == |v| ==> r.value.comment == "")
    ensures (forall j :: 0 <= j < |v| ==> v[j] !in NumberEnds) ==>
      r == (if IsNumberToken(v) then Ok(ParsedValue(v, "")) else Err(Raised(Raise(ValueException, WrongNumber))))
    ensures r.Err? ==> r.failure in {
      Raised(Raise(ValueException, WrongNumber)), Raised(Raise(IniReaderException, UnexpectedSymbols)), OutOfRange }
  {
    match FindFirstOf(v, NumberEnds, 0)
    case None =>
      assert v[..|v|] == v;
      if IsNumberToken(v) then Ok(ParsedValue(v, "")) else Err(Raised(Raise(ValueException, WrongNumber)))
    case Some(i) =>
      match VerifyComment(v[i..])
      case Err(f) => Err(f)
      case Ok(c) =>
        if IsNumberToken(v[..i]) then Ok(ParsedValue(v[..i], c))
        else Err(Raised(Raise(ValueException, WrongNumber)))
  }

  /** `ParseNumber`: the cut, the comment check and the `dotCount` loop. */
  method ParseNumber(v: string) returns (r: Result<ParsedValue>)
    ensures r == NumberRule(v)
  {
    var cut := FindFirstOf(v, NumberEnds, 0);
    var token, comment := v, "";
    if cut.Some? {
      var c := VerifyComment(v[cut.value..]);
      if c.Err? {
        return Err(c.failure);
      }
      token, comment := v[..cut.value], c.value;
    }
    var verdict := ScanNumber(token);
    TokenVerdictNumber(token);
    if verdict != Number {
      return Err(Raised(Raise(ValueException, WrongNumber)));
    }
    assert cut.None? ==> v[..|v|] == v;
    return Ok(ParsedValue(token, comment));
  }

  /** `ParseSection` up to the creation of the section: the name is between `[` and
      the final `]`, or else between `[` and the first `]`, whose tail must then be a
      comment; either way the name must pass `IsAlpha`. */
  function SectionHeader(line: string): (r: Result<string>)
    requires |line| > 0 && line[0] == '['
    ensures r.Ok? ==> IsAlpha(r.value) && |r.value| + 2 <= |line| && line[..|r.value| + 2] == "[" + r.value + "]"
    ensures r.Ok? && |r.value| + 2 < |line| ==> VerifyComment(line[|r.value| + 2..]).Ok?
    ensures ']' !in line ==> r == Err(Raised(Raise(SectionException, UnterminatedSection)))
    ensures line[|line| - 1] == ']' ==> (r.Ok? <==> IsAlpha(line[1..|line| - 1]))
    ensures r.Err? ==> r.failure in {
      Raised(Raise(SectionException, UnterminatedSection)), Raised(Raise(SectionException, SectionLetters)),
      Raised(Raise(IniReaderException, UnexpectedSymbols)), OutOfRange }
  {
    if line[|line| - 1] == ']' then ClosedHeader(line)
    else
      match FindFirstOf(line, {']'}, 0)
      case None => Err(Raised(Raise(SectionException, UnterminatedSection)))
      case Some(i) => CommentedHeader(line, i)
  }

  /** `ParseSection` for a line ending with `]`: the name is everything between the
      brackets. */
  function ClosedHeader(line: string): (r: Result<string>)
    requires |line| >= 2 && line[0] == '[' && line[|line| - 1] == ']'
    ensures r.Ok? <==> IsAlpha(line[1..|line| - 1])
    ensures r.Ok? ==> r.value == line[1..|line| - 1] && line == "[" + r.value + "]"
    ensures r.Err? ==> r.failure == Raised(Raise(SectionException, SectionLetters))
  {
    var name := line[1..|line| - 1];
    assert line == "[" + name + "]";
    if IsAlpha(name) then Ok(name) else Err(Raised(Raise(SectionException, SectionLetters)))
  }

  /** The end of `ParseSection` for a header whose first `]` is at `i` and is not the
      last character: the rest must be a comment, and the name is checked after it. */
  function CommentedHeader(line: string, i: nat): (r: Result<string>)
    requires 0 < i < |line| - 1 && line[0] == '[' && line[i] == ']'
    ensures r.Ok? ==> r.value == line[1..i] && IsAlpha(r.value) && VerifyComment(line[i + 1..]).Ok?
    ensures r.Ok? ==> line[..i + 1] == "[" + r.value + "]"
    ensures r.Err? ==> r.failure in {
      Raised(Raise(SectionException, SectionLetters)), Raised(Raise(IniReaderException, UnexpectedSymbols)),
      OutOfRange }
  {
    assert line[..i + 1] == "[" + line[1..i] + "]";
    match VerifyComment(line[i + 1..])
    case Err(f) => Err(f)
    case Ok(_) =>
      if IsAlpha(line[1..i]) then Ok(line[1..i]) else Err(Raised(Raise(SectionException, SectionLetters)))
  }

  /** `ParseItem` up to the insertion: exactly one `=`, checked before the active
      section; the stripped text left of it is the key, which must pass `IsAlpha`;
      the stripped text right of it is the value, read by the quoted rule when it
      starts with a quote and by the numeric rule otherwise. */
  function ParseItemLine(line: string, hasActive: bool): (r: Result<ParsedItem>)
    ensures Count(line, '=') != 1 ==> r == Err(Raised(Raise(ItemException, EqualsCount)))
    ensures Count(line, '=') == 1 && !hasActive ==> r == Err(Raised(Raise(IniReaderException, GlobalItem)))
    ensures r.Ok? ==> hasActive && Count(line, '=') == 1 && IsAlpha(r.value.key)
    ensures r.Ok? ==> var d := IndexOf(line, '=');
      && r.value.key == Stripped(line[..d])
      && ValueRule(Stripped(line[d + 1..])) == Ok(r.value.parsed)
  {
    if Count(line, '=') != 1 then Err(Raised(Raise(ItemException, EqualsCount)))
    else if !hasActive then Err(Raised(Raise(IniReaderException, GlobalItem)))
    else
      var d := IndexOf(line, '=');
      var key := Stripped(line[..d]);
      if !IsAlpha(key) then Err(Raised(Raise(KeyException, KeyLetters)))
      else
        match ValueRule(Stripped(line[d + 1..]))
        case Err(f) => Err(f)
        case Ok(pv) => Ok(ParsedItem(key, pv))
  }

  /** The value dispatch of `ParseItem` on the stripped value. */
  function ValueRule(value: string): Result<ParsedValue> {
    if value == "" then Err(EmptyValue)
    else if IsQuote(value[0]) then ParseString(value)
    else NumberRule(value)
  }

  /** The failures of an item line past the `=` count and the active section: a key
      `IsAlpha` refuses gives a `KeyException`, and a refused value the failure of
      its value rule. */
  lemma ItemLineFailures(line: string)
    requires Count(line, '=') == 1
    ensures var d := IndexOf(line, '=');
      && (!IsAlpha(Stripped(line[..d])) ==> ParseItemLine(line, true) == Err(Raised(Raise(KeyException, KeyLetters))))
      && (IsAlpha(Stripped(line[..d])) && ValueRule(Stripped(line[d + 1..])).Err? ==>
            ParseItemLine(line, true) == Err(ValueRule(Stripped(line[d + 1..])).failure))
  {
  }

  function ItemOf(key: string, pv: ParsedValue): ItemView {
    ItemView(key, pv.value, pv.comment)
  }

  /** `Section::Add`: append the key to the order list and `emplace` the item, which
      keeps an entry already there. */
  function AddItem(s: SectionView, key: string, pv: ParsedValue): SectionView {
    SectionView(s.name, s.itemOrder + [key], if key in s.items then s.items else s.items[key := ItemOf(key, pv)])
  }

  /** A section created by a header line: appended to `m_sectionOrder` every time,
      while `emplace` keeps a section already there under that name. */
  function AddSection(d: Doc, name: string): Doc {
    Doc(d.sectionOrder + [name],
        if name in d.sections then d.sections else d.sections[name := SectionView(name, [], map[])])
  }

  /** The invariants of a document: the order lists hold exactly the keys of their
      maps, each entry is filed under its own name. */
  ghost predicate SectionOk(name: string, s: SectionView) {
    && s.name == name
    && (forall k :: k in s.itemOrder <==> k in s.items)
    && (forall k :: k in s.items ==> s.items[k].key == k)
  }

  ghost predicate DocOk(d: Doc) {
    && (forall n :: n in d.sectionOrder <==> n in d.sections)
    && (forall n :: n in d.sections ==> SectionOk(n, d.sections[n]))
  }

  /** The active section, if any, is a section of the document. */
  predicate StateOk(st: ParseState) {
    st.active.Some? ==> st.active.value in st.doc.sections
  }

  /** `ParseSection` on a line starting with `[`: the header's section is appended
      to the order, created unless it exists, and becomes the active section. */
  function HeaderStep(st: ParseState, line: string): (r: Result<ParseState>)
    requires |line| > 0 && line[0] == '['
    ensures r.Ok? ==> r.value.active.Some? && r.value.active.value in r.value.doc.sections
  {
    match SectionHeader(line)
    case Err(f) => Err(f)
    case Ok(name) => Ok(ParseState(AddSection(st.doc, name), Some(name)))
  }

  /** `ParseItem`: the item goes into the active section. */
  function ItemStep(st: ParseState, line: string): (r: Result<ParseState>)
    requires StateOk(st)
    ensures r.Ok? ==> StateOk(r.value) && r.value.active == st.active
  {
    match ParseItemLine(line, st.active.Some?)
    case Err(f) => Err(f)
    case Ok(it) => Ok(FileItem(st, it.key, it.parsed))
  }

  /** `activeSection->Add(key, parsedValue)`: only the active section changes. */
  function FileItem(st: ParseState, key: string, parsed: ParsedValue): (r: ParseState)
    requires StateOk(st) && st.active.Some?
    ensures StateOk(r) && r.active == st.active && r.doc.sectionOrder == st.doc.sectionOrder
  {
    var n := st.active.value;
    ParseState(Doc(st.doc.sectionOrder, st.doc.sections[n := AddItem(st.doc.sections[n], key, parsed)]), st.active)
  }

  /** One iteration of `Parse`: an empty line is skipped, a line starting with a
      comment marker is refused, a line starting with `[` is a header, and anything
      else is an item of the active section. */
  function Step(st: ParseState, line: string): (r: Result<ParseState>)
    requires StateOk(st)
    ensures r.Ok? ==> StateOk(r.value)
  {
    if line == "" then Ok(st)
    else if line[0] in CommentMarkers then Err(InvalidArgument(CommentLineMessage))
    else if line[0] == '[' then HeaderStep(st, line)
    else ItemStep(st, line)
  }

  /** The lines fed to `Parse` one after another from `st`; the first failure ends it. */
  function Run(st: ParseState, lines: seq<string>): (r: Result<ParseState>)
    requires StateOk(st)
    decreases |lines|
    ensures r.Ok? ==> StateOk(r.value)
  {
    if lines == [] then Ok(st)
    else
      match Run(st, lines[..|lines| - 1])
      case Err(f) => Err(f)
      case Ok(s) => Step(s, lines[|lines| - 1])
  }

  /** Everything `Parse` does to a document file's lines, from the empty document. */
  function ParseLines(lines: seq<string>): Result<ParseState> {
    Run(Initial, lines)
  }

  /** A blank prefix followed by a comment is accepted, and the comment comes back. */
  lemma VerifyCommentOf(pre: string, c: string)
    requires IsSpace(pre) && c != [] && c[0] in CommentMarkers
    ensures VerifyComment(pre + c) == Ok(c)
  {
    var s := pre + c;
    assert s[|pre|] == c[0];
    assert forall j :: 0 <= j < |pre| ==> s[j] == pre[j];
    assert s[..|pre|] == pre && s[|pre|..] == c;
    assert FindFirstOf(s, CommentMarkers, 0) == Some(|pre|);
  }

  /** A quoted string without a comment is kept whole, quotes included. */
  lemma ParseStringBare(q: char, body: string)
    requires q !in body
    ensures ParseString([q] + body + [q]) == Ok(ParsedValue([q] + body + [q], ""))
  {
    var v := [q] + body + [q];
    assert v[1..] == body + [q];
    forall j | 1 <= j < |v| - 1 ensures v[j] != q {
      assert v[j] == body[j - 1];
    }
    assert v[|v| - 1] == q;
    assert FindFirstOf(v, {q}, 1) == Some(|v| - 1);
  }

  /** A quoted string followed by blanks and a comment: the string, quotes included,
      and the comment are separated. */
  lemma ParseStringCommented(q: char, body: string, pre: string, c: string)
    requires q !in body
    requires IsSpace(pre) && c != [] && c[0] in CommentMarkers
    ensures ParseString([q] + body + [q] + pre + c) == Ok(ParsedValue([q] + body + [q], c))
  {
    var w := [q] + body + [q];
    var v := w + pre + c;
    FirstQuote(q, body, pre + c);
    assert v == [q] + body + [q] + (pre + c);
    assert v[|w|..] == pre + c && v[..|w|] == w;
    VerifyCommentOf(pre, c);
    ParseStringCut(v, |w| - 1, c);
  }

  /** The closing quote is the first occurrence of the opening one after it. */
  lemma FirstQuote(q: char, body: string, rest: string)
    requires q !in body
    ensures FindFirstOf([q] + body + [q] + rest, {q}, 1) == Some(|body| + 1)
  {
    var v := [q] + body + [q] + rest;
    assert forall j :: 1 <= j < |body| + 1 ==> v[j] == body[j - 1];
    assert v[|body| + 1] == q;
  }

  /** `ParseString` when the closing quote at `i` is followed by a comment. */
  lemma ParseStringCut(v: string, i: nat, c: string)
    requires |v| > 0 && i < |v| - 1 && FindFirstOf(v, {v[0]}, 1) == Some(i)
    requires VerifyComment(v[i + 1..]) == Ok(c)
    ensures ParseString(v) == Ok(ParsedValue(v[..i + 1], c))
  {
    assert QuoteCut(v, i) == Ok(ParsedValue(v[..i + 1], c));
  }

  /** `ParseString` when the first recurrence of the quote, at `i`, is followed by
      text that is not a comment: the failure `VerifyComment` gives for that text. */
  lemma ParseStringTailFails(v: string, i: nat)
    requires 0 < i < |v| - 1 && v[i] == v[0] && v[0] !in v[1..i]
    requires VerifyComment(v[i + 1..]).Err?
    ensures ParseString(v) == Err(VerifyComment(v[i + 1..]).failure)
  {
    assert forall j :: 1 <= j < i ==> v[j] == v[1..i][j - 1];
    assert FindFirstOf(v, {v[0]}, 1) == Some(i);
  }

  /** Number tokens never hold a character the numeric rule cuts at. */
  lemma NumberTokenUncut(t: string)
    requires IsNumberToken(t)
    ensures forall j :: 0 <= j < |t| ==> t[j] !in NumberEnds
  {
  }

  /** A number token alone, and a number token followed by a comment the numeric rule
      accepts, give the token and the comment back. */
  lemma NumberRuleOf(t: string, tail: string)
    requires IsNumberToken(t)
    requires tail != [] ==> tail[0] in NumberEnds && VerifyComment(tail).Ok?
    ensures NumberRule(t + tail) == Ok(ParsedValue(t, if tail == [] then "" else VerifyComment(tail).value))
  {
    var v := t + tail;
    NumberTokenUncut(t);
    assert forall j :: 0 <= j < |t| ==> v[j] == t[j];
    if tail == [] {
      assert v == t;
      assert FindFirstOf(v, NumberEnds, 0).None?;
    } else {
      assert v[|t|] == tail[0];
      assert FindFirstOf(v, NumberEnds, 0) == Some(|t|);
      assert v[|t|..] == tail && v[..|t|] == t;
    }
  }

  /** A header line built from a name of letters and digits, with or without a
      trailing comment, names that section; a comment that itself ends with `]`
      makes the line count as a header without comment instead. */
  lemma SectionHeaderOf(name: string, tail: string)
    requires IsAlpha(name)
    requires tail != [] ==> tail[|tail| - 1] != ']' && VerifyComment(tail).Ok?
    ensures SectionHeader("[" + name + "]" + tail) == Ok(name)
  {
    if tail == [] {
      var line := "[" + name + "]";
      assert line == "[" + name + "]" + tail;
      assert line[1..|line| - 1] == name;
    } else {
      HeaderCommented(name, tail);
    }
  }

  lemma HeaderCommented(name: string, tail: string)
    requires IsAlpha(name) && tail != [] && tail[|tail| - 1] != ']' && VerifyComment(tail).Ok?
    ensures SectionHeader("[" + name + "]" + tail) == Ok(name)
  {
    var line := "[" + name + "]" + tail;
    assert line[0] == '[' && line[|line| - 1] != ']' by {
      assert line[|line| - 1] == tail[|tail| - 1];
    }
    assert FindFirstOf(line, {']'}, 0) == Some(|name| + 1) by {
      FirstBracket(name, tail);
    }
    assert CommentedHeader(line, |name| + 1) == Ok(name) by {
      assert line[1..|name| + 1] == name && line[|name| + 2..] == tail;
    }
    assert SectionHeader(line) == CommentedHeader(line, |name| + 1);
  }

  /** The first `]` of a header line is the one after the name. */
  lemma FirstBracket(name: string, tail: string)
    requires IsAlpha(name)
    ensures FindFirstOf("[" + name + "]" + tail, {']'}, 0) == Some(|name| + 1)
  {
    var line := "[" + name + "]" + tail;
    forall j | 0 <= j < |name| + 1 ensures line[j] != ']' {
      if j > 0 {
        assert line[j] == name[j - 1];
        assert IsAlnumChar(name[j - 1]);
      }
    }
    assert line[|name| + 1] == ']';
  }

  /** Running two blocks of lines is running the first and then, if it succeeded,
      the second from where the first left off. */
  lemma {:induction false} RunAppend(st: ParseState, a: seq<string>, b: seq<string>)
    requires StateOk(st)
    decreases |b|
    ensures Run(st, a).Err? ==> Run(st, a + b) == Run(st, a)
    ensures Run(st, a).Ok? ==> Run(st, a + b) == Run(Run(st, a).value, b)
  {
    if b == [] {
      assert a + b == a;
    } else {
      var b' := b[..|b| - 1];
      RunAppend(st, a, b');
      assert (a + b)[..|a + b| - 1] == a + b';
      assert (a + b)[|a + b| - 1] == b[|b| - 1];
    }
  }

  /** A parse that fails on the first `n` lines fails the same way on all of them. */
  lemma RunFailsEarly(st: ParseState, lines: seq<string>, n: nat)
    requires StateOk(st) && n <= |lines| && Run(st, lines[..n]).Err?
    ensures Run(st, lines) == Run(st, lines[..n])
  {
    RunAppend(st, lines[..n], lines[n..]);
    assert lines[..n] + lines[n..] == lines;
  }

  /** Empty lines change nothing wherever they occur. */
  lemma RunSkipsEmpty(st: ParseState, a: seq<string>, b: seq<string>)
    requires StateOk(st)
    ensures Run(st, a + [""] + b) == Run(st, a + b)
  {
    RunAppend(st, a + [""], b);
    RunAppend(st, a, b);
    assert (a + [""])[..|a + [""]| - 1] == a;
  }

  /** A line that starts with `#` or `;` ends the parse with `std::invalid_argument`
      as soon as it is reached, whatever follows it. */
  lemma CommentLineFails(st: ParseState, a: seq<string>, line: string, b: seq<string>)
    requires StateOk(st) && Run(st, a).Ok?
    requires line != [] && line[0] in CommentMarkers
    ensures Run(st, a + [line] + b) == Err(InvalidArgument(CommentLineMessage))
  {
    RunAppend(st, a + [line], b);
    assert (a + [line])[..|a + [line]| - 1] == a;
  }

  /** One step keeps the document invariants. */
  lemma StepKeepsDocOk(st: ParseState, line: string)
    requires StateOk(st) && DocOk(st.doc)
    ensures Step(st, line).Ok? ==> DocOk(Step(st, line).value.doc)
  {
    if line == "" || line[0] in CommentMarkers {
    } else if line[0] == '[' {
      assert Step(st, line) == HeaderStep(st, line);
      HeaderStepKeepsDocOk(st, line);
    } else {
      assert Step(st, line) == ItemStep(st, line);
      ItemStepKeepsDocOk(st, line);
    }
  }

  /** A header line keeps the invariants: a new section is empty. */
  lemma HeaderStepKeepsDocOk(st: ParseState, line: string)
    requires DocOk(st.doc) && |line| > 0 && line[0] == '['
    ensures HeaderStep(st, line).Ok? ==> DocOk(HeaderStep(st, line).value.doc)
  {
    match SectionHeader(line)
    case Err(_) =>
    case Ok(name) =>
      assert HeaderStep(st, line).value.doc == AddSection(st.doc, name);
      AddSectionKeepsDocOk(st.doc, name);
  }

  lemma AddSectionKeepsDocOk(d: Doc, name: string)
    requires DocOk(d)
    ensures DocOk(AddSection(d, name))
  {
  }

  /** An item line keeps the invariants. */
  lemma ItemStepKeepsDocOk(st: ParseState, line: string)
    requires StateOk(st) && DocOk(st.doc)
    ensures ItemStep(st, line).Ok? ==> DocOk(ItemStep(st, line).value.doc)
  {
    match ParseItemLine(line, st.active.Some?)
    case Err(_) =>
    case Ok(it) => FileItemKeepsDocOk(st, it.key, it.parsed);
  }

  /** Adding an item to the active section keeps the invariants. */
  lemma FileItemKeepsDocOk(st: ParseState, key: string, pv: ParsedValue)
    requires StateOk(st) && st.active.Some? && DocOk(st.doc)
    ensures DocOk(FileItem(st, key, pv).doc)
  {
    var n := st.active.value;
    var s := st.doc.sections[n];
    assert SectionOk(n, s);
    assert SectionOk(n, AddItem(s, key, pv));
  }

  /** Every document a parse builds keeps the invariants. */
  lemma {:induction false} RunKeepsDocOk(st: ParseState, lines: seq<string>)
    requires StateOk(st) && DocOk(st.doc)
    decreases |lines|
    ensures Run(st, lines).Ok? ==> DocOk(Run(st, lines).value.doc)
  {
    if lines != [] {
      RunKeepsDocOk(st, lines[..|lines| - 1]);
      match Run(st, lines[..|lines| - 1])
      case Err(_) =>
      case Ok(s) => StepKeepsDocOk(s, lines[|lines| - 1]);
    }
  }

  /** The section names the header lines among `lines` declare, in order. */
  function Headers(lines: seq<string>): seq<string>
    decreases |lines|
  {
    if lines == [] then []
    else
      var line := lines[|lines| - 1];
      Headers(lines[..|lines| - 1])
      + (if line != "" && line[0] == '[' && SectionHeader(line).Ok? then [SectionHeader(line).value] else [])
  }

  /** A parse appends one name to `m_sectionOrder` per header line, repeats included,
      and leaves the last header's section active. */
  lemma {:induction false} RunSectionOrder(st: ParseState, lines: seq<string>)
    requires StateOk(st)
    decreases |lines|
    ensures Run(st, lines).Ok? ==>
      && Run(st, lines).value.doc.sectionOrder == st.doc.sectionOrder + Headers(lines)
      && Run(st, lines).value.active
         == (if Headers(lines) == [] then st.active else Some(Headers(lines)[|Headers(lines)| - 1]))
  {
    if lines != [] {
      var init := lines[..|lines| - 1];
      RunSectionOrder(st, init);
      match Run(st, init)
      case Err(_) =>
      case Ok(s) =>
        assert st.doc.sectionOrder + Headers(init) + Headers([lines[|lines| - 1]]) ==
          st.doc.sectionOrder + (Headers(init) + Headers([lines[|lines| - 1]]));
    }
  }
}
