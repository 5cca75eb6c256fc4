/** The line grammar of IniReader.cpp, the earlier copy of the reader, on the
    helpers it shares with IniReader.h (IniText, IniNumber, and the character sets of
    IniGrammar). Its rules differ from IniGrammar's: lines starting with a comment
    marker are skipped, `IsAlpha` is `isalpha`, a quoted value is stored without its
    quotes, a comment is checked and then dropped, the text after a number token is
    never checked, and every failure is a `std::invalid_argument`. Items render as
    `key=value`. */
module IniCppGrammar {
  import opened IniText
  import opened IniNumber
  import opened IniExceptions
  import G = IniGrammar
  import R = IniRender

  // The messages the parser throws `std::invalid_argument` with.
  const UnterminatedSection := "Незаконченная секция"
  const SectionLetters := "Секция должна содержать только буквенные знаки"
  const EqualsCount := "Syntax error. Пара должна содержать один знак ="
  const GlobalItem := "Парсер неподдерживает глобальные переменные в ini-файле"
  const KeyLetters := "Ключ должен содержать только буквенные символы"
  const MalformedString := "Строка записана неправильно"
  const LoneDotMessage := "Неправильная запись числа"
  const ExtraDotMessage := "Число не может содержать больше одной точки"
  const NonDigitMessage := "Число должно содержать только цифры"
  const UnexpectedSymbols := "Неожиданные символы. Если вы хотели оставить комментарий используйте # или ;"

  /** `Config::IsAlpha`: `std::isalpha` on every character, so digits are refused;
      true of "". */
  predicate IsLetters(s: string) { forall i :: 0 <= i < |s| ==> IsAlphaChar(s[i]) }

  /** `VerifyComent`: the text before the first `#` or `;`, or the whole text when
      there is none, must be white space; nothing is returned. */
  function VerifyComment(s: string): (r: Outcome)
    ensures r.Pass? <==> IsSpace(s) || exists i :: 0 <= i < |s| && s[i] in G.CommentMarkers && IsSpace(s[..i])
    ensures r.Fail? ==> r == Fail(InvalidArgument(UnexpectedSymbols))
  {
    match FindFirstOf(s, G.CommentMarkers, 0)
    case None =>
      if IsSpace(s) then Pass else Fail(InvalidArgument(UnexpectedSymbols))
    case Some(i) =>
      forall j | i < j <= |s| && IsSpace(s[..j]) ensures IsSpace(s[..i]) {
        SpacePrefix(s, i, j);
      }
      assert s[..|s|] == s;
      if IsSpace(s[..i]) then Pass else Fail(InvalidArgument(UnexpectedSymbols))
  }

  /** A prefix of a blank prefix is blank. */
  lemma SpacePrefix(s: string, i: nat, j: nat)
    requires i <= j <= |s| && IsSpace(s[..j])
    ensures IsSpace(s[..i])
  {
    assert forall k :: 0 <= k < i ==> s[..i][k] == s[..j][k];
  }

  /** `ParseString` on a value starting with a quote: the value is cut at the first
      later occurrence of that quote, what follows must pass `VerifyComment`, and the
      text between the quotes is kept. */
  function StringRule(v: string): (r: Result<string>)
    requires v != []
    ensures r == Err(InvalidArgument(MalformedString)) <==> v[0] !in v[1..]
    ensures r.Ok? ==> var k := |r.value| + 1;
      && k < |v| && v[..k + 1] == [v[0]] + r.value + [v[0]] && v[0] !in r.value
      && VerifyComment(v[k + 1..]).Pass?
    ensures r.Err? && v[0] in v[1..] ==> r == Err(InvalidArgument(UnexpectedSymbols))
  {
    var q := v[0];
    match FindFirstOf(v, {q}, 1)
    case None =>
      assert forall j :: 0 <= j < |v[1..]| ==> v[1..][j] == v[j + 1];
      Err(InvalidArgument(MalformedString))
    case Some(k) =>
      assert v[1..][k - 1] == q;
      assert v[..k + 1] == [q] + v[1..k] + [q];
      if k == |v| - 1 then
        assert v[k + 1..] == [];
        Ok(v[1..|v| - 1])
      else
        match VerifyComment(v[k + 1..])
        case Fail(f) => Err(f)
        case Pass => Ok(v[1..k])
  }

  /** The length of the token `ParseNumber` keeps: up to the first `#`, `;` or space. */
  function TokenLength(v: string): (n: nat)
    ensures n <= |v| && (forall j :: 0 <= j < n ==> v[j] !in G.NumberEnds)
    ensures n < |v| ==> v[n] in G.NumberEnds
  {
    match FindFirstOf(v, G.NumberEnds, 0)
    case None => |v|
    case Some(i) => i
  }

  /** The `std::invalid_argument` each of the three checks of the `dotCount` loop
      throws. */
  function VerdictFailure(verdict: TokenVerdict): Failure
    requires verdict != Number
  {
    match verdict
    case LoneDot => InvalidArgument(LoneDotMessage)
    case ExtraDot => InvalidArgument(ExtraDotMessage)
    case NonDigit => InvalidArgument(NonDigitMessage)
  }

  /** `ParseNumber`: the value is cut before the first `#`, `;` or space, so the
      `VerifyComent` call that follows sees an empty string and what was cut off is
      dropped unchecked; the token must then pass the `dotCount` loop. */
  function NumberRule(v: string): (r: Result<string>)
    ensures r.Ok? <==> IsNumberToken(v[..TokenLength(v)])
    ensures r.Ok? ==> r.value == v[..TokenLength(v)]
    ensures r.Err? ==> var t := v[..TokenLength(v)];
      TokenVerdictOf(t) != Number && r.failure == VerdictFailure(TokenVerdictOf(t))
  {
    var t := v[..TokenLength(v)];
    TokenVerdictNumber(t);
    if TokenVerdictOf(t) == Number then Ok(t) else Err(VerdictFailure(TokenVerdictOf(t)))
  }

  /** `ParseNumber` as the source writes it: the cut, the call of `VerifyComent` on
      the already shortened value, and the `dotCount` loop. */
  method ParseNumber(value: string) returns (r: Result<string>)
    ensures r == NumberRule(value)
  {
    var v := value;
    var cut := FindFirstOf(v, G.NumberEnds, 0);
    if cut.Some? {
      v := v[..cut.value];
      var check := VerifyComment(v[cut.value..]);
      // `v` is now `cut` characters long: `VerifyComent` sees "" and cannot throw.
      assert check.Pass?;
    }
    assert cut.None? ==> v == value[..|value|];
    var verdict := ScanNumber(v);
    if verdict != Number {
      return Err(VerdictFailure(verdict));
    }
    return Ok(v);
  }

  /** The value dispatch of `ParseItem`: `front()` of an empty value is undefined in
      the source and an explicit failure here. */
  function ValueRule(value: string): Result<string> {
    if value == "" then Err(EmptyValue)
    else if G.IsQuote(value[0]) then StringRule(value)
    else NumberRule(value)
  }

  /** `Item`: a key and its stored value. */
  datatype ItemView = ItemView(key: string, value: string)

  /** `ParseItem` up to the insertion: one `=`, checked before the active section; the
      stripped text left of it is the key, of letters only; the stripped text right of
      it is the value, read by the quoted or the numeric rule. */
  function ParseItemLine(line: string, hasActive: bool): (r: Result<ItemView>)
    ensures Count(line, '=') != 1 ==> r == Err(InvalidArgument(EqualsCount))
    ensures Count(line, '=') == 1 && !hasActive ==> r == Err(InvalidArgument(GlobalItem))
    ensures r.Ok? ==> hasActive && Count(line, '=') == 1 && IsLetters(r.value.key)
    ensures r.Ok? ==> var d := IndexOf(line, '=');
      && r.value.key == Stripped(line[..d])
      && ValueRule(Stripped(line[d + 1..])) == Ok(r.value.value)
    ensures Count(line, '=') == 1 && hasActive ==> var d := IndexOf(line, '=');
      && (!IsLetters(Stripped(line[..d])) ==> r == Err(InvalidArgument(KeyLetters)))
      && (IsLetters(Stripped(line[..d])) && ValueRule(Stripped(line[d + 1..])).Err? ==>
            r == Err(ValueRule(Stripped(line[d + 1..])).failure))
    ensures r.Err? ==> r.failure.InvalidArgument? || r.failure == EmptyValue
  {
    if Count(line, '=') != 1 then Err(InvalidArgument(EqualsCount))
    else if !hasActive then Err(InvalidArgument(GlobalItem))
    else
      var d := IndexOf(line, '=');
      var key := Stripped(line[..d]);
      if !IsLetters(key) then Err(InvalidArgument(KeyLetters))
      else
        match ValueRule(Stripped(line[d + 1..]))
        case Err(f) => Err(f)
        case Ok(value) => Ok(ItemView(key, value))
  }

  /** The steps of `ParseItem` in the source's order. */
  method ReadItem(line: string, hasActive: bool) returns (r: Result<ItemView>)
    ensures r == ParseItemLine(line, hasActive)
  {
    if Count(line, '=') != 1 {
      return Err(InvalidArgument(EqualsCount));
    }
    if !hasActive {
      return Err(InvalidArgument(GlobalItem));
    }
    var delim := IndexOf(line, '=');
    var key := Strip(line[..delim]);
    if !IsLetters(key) {
      return Err(InvalidArgument(KeyLetters));
    }
    var value := Strip(line[delim + 1..]);
    if value == "" {
      return Err(EmptyValue);
    }
    var parsed: Result<string>;
    if G.IsQuote(value[0]) {
      parsed := StringRule(value);
    } else {
      parsed := ParseNumber(value);
    }
    if parsed.Err? {
      return Err(parsed.failure);
    }
    return Ok(ItemView(key, parsed.value));
  }

  /** `ParseSection` up to the creation of the section: the name is between `[` and
      the final `]`, or else between `[` and the first `]`, whose tail must pass
      `VerifyComment`; either way the name must be letters only. */
  function SectionHeader(line: string): (r: Result<string>)
    requires line != [] && line[0] == '['
    ensures r.Ok? ==> IsLetters(r.value) && |r.value| + 2 <= |line| && line[..|r.value| + 2] == "[" + r.value + "]"
    ensures r.Ok? && |r.value| + 2 < |line| ==> VerifyComment(line[|r.value| + 2..]).Pass?
    ensures ']' !in line ==> r == Err(InvalidArgument(UnterminatedSection))
    ensures line[|line| - 1] == ']' ==> (r.Ok? <==> IsLetters(line[1..|line| - 1]))
    ensures r.Err? ==> r.failure in {
      InvalidArgument(UnterminatedSection), InvalidArgument(SectionLetters), InvalidArgument(UnexpectedSymbols) }
  {
    if line[|line| - 1] == ']' then ClosedHeader(line)
    else
      match FindFirstOf(line, {']'}, 0)
      case None => Err(InvalidArgument(UnterminatedSection))
      case Some(i) => CommentedHeader(line, i)
  }

  /** `ParseSection` for a line ending with `]`. */
  function ClosedHeader(line: string): (r: Result<string>)
    requires |line| >= 2 && line[0] == '[' && line[|line| - 1] == ']'
    ensures r.Ok? <==> IsLetters(line[1..|line| - 1])
    ensures r.Ok? ==> r.value == line[1..|line| - 1] && line == "[" + r.value + "]"
    ensures r.Err? ==> r.failure == InvalidArgument(SectionLetters)
  {
    var name := line[1..|line| - 1];
    assert line == "[" + name + "]";
    if IsLetters(name) then Ok(name) else Err(InvalidArgument(SectionLetters))
  }

  /** `ParseSection` for a header whose first `]` is at `i` and is not the last
      character. */
  function CommentedHeader(line: string, i: nat): (r: Result<string>)
    requires 0 < i < |line| - 1 && line[0] == '[' && line[i] == ']'
    ensures r.Ok? ==> r.value == line[1..i] && IsLetters(r.value) && VerifyComment(line[i + 1..]).Pass?
    ensures r.Ok? ==> line[..i + 1] == "[" + r.value + "]"
    ensures r.Err? ==> r.failure in {InvalidArgument(SectionLetters), InvalidArgument(UnexpectedSymbols)}
  {
    assert line[..i + 1] == "[" + line[1..i] + "]";
    match VerifyComment(line[i + 1..])
    case Fail(f) => Err(f)
    case Pass =>
      if IsLetters(line[1..i]) then Ok(line[1..i]) else Err(InvalidArgument(SectionLetters))
  }

  /** `Section`: the order of keys, repeats included, and the item of each key. */
  datatype SectionView = SectionView(name: string, itemOrder: seq<string>, items: map<string, ItemView>)

  /** `INI`: the order of sections, repeats included, and the section of each name. */
  datatype Doc = Doc(sectionOrder: seq<string>, sections: map<string, SectionView>)

  /** The document and the name of the section `activeSection` points to. */
  datatype ParseState = ParseState(doc: Doc, active: Option<string>)

  const Initial := ParseState(Doc([], map[]), None)

  /** `Section::Add`: the key is appended in every case, and `emplace` keeps an item
      already filed under it. */
  function AddItem(s: SectionView, it: ItemView): SectionView {
    SectionView(s.name, s.itemOrder + [it.key], if it.key in s.items then s.items else s.items[it.key := it])
  }

  /** The end of `ParseSection`: the name is appended every time, and `emplace` keeps a
      section already filed under it. */
  function AddSection(d: Doc, name: string): Doc {
    Doc(d.sectionOrder + [name],
        if name in d.sections then d.sections else d.sections[name := SectionView(name, [], map[])])
  }

  /** The order lists hold exactly the keys of their maps, and everything is filed
      under its own name. */
  ghost predicate SectionOk(name: string, s: SectionView) {
    && s.name == name
    && (forall k :: k in s.itemOrder <==> k in s.items)
    && (forall k :: k in s.items ==> s.items[k].key == k)
  }

  ghost predicate DocOk(d: Doc) {
    && (forall n :: n in d.sectionOrder <==> n in d.sections)
    && (forall n :: n in d.sections ==> SectionOk(n, d.sections[n]))
  }

  predicate StateOk(st: ParseState) {
    st.active.Some? ==> st.active.value in st.doc.sections
  }

  /** `ParseSection` on a line starting with `[`. */
  function HeaderStep(st: ParseState, line: string): (r: Result<ParseState>)
    requires line != [] && line[0] == '['
    ensures r.Ok? ==> r.value.active.Some? && r.value.active.value in r.value.doc.sections
    ensures r.Err? ==> r.failure.InvalidArgument?
  {
    match SectionHeader(line)
    case Err(f) => Err(f)
    case Ok(name) => Ok(ParseState(AddSection(st.doc, name), Some(name)))
  }

  /** `ParseItem`: the item goes into the active section. */
  function ItemStep(st: ParseState, line: string): (r: Result<ParseState>)
    requires StateOk(st)
    ensures r.Ok? ==> StateOk(r.value) && r.value.active == st.active
    ensures r.Err? ==> r.failure.InvalidArgument? || r.failure == EmptyValue
  {
    match ParseItemLine(line, st.active.Some?)
    case Err(f) => Err(f)
    case Ok(it) => Ok(FileItem(st, it))
  }

  /** `activeSection->Add(key, value)`: only the active section changes. */
  function FileItem(st: ParseState, it: ItemView): (r: ParseState)
    requires StateOk(st) && st.active.Some?
    ensures StateOk(r) && r.active == st.active && r.doc.sectionOrder == st.doc.sectionOrder
  {
    var n := st.active.value;
    ParseState(Doc(st.doc.sectionOrder, st.doc.sections[n := AddItem(st.doc.sections[n], it)]), st.active)
  }

  /** One iteration of `Parse`: an empty line and a line starting with `#` or `;` are
      skipped, a line starting with `[` is a header, anything else an item. */
  function Step(st: ParseState, line: string): (r: Result<ParseState>)
    requires StateOk(st)
    ensures r.Ok? ==> StateOk(r.value)
  {
    if line == "" || line[0] in G.CommentMarkers then Ok(st)
    else if line[0] == '[' then HeaderStep(st, line)
    else ItemStep(st, line)
  }

  /** The lines fed to `Parse` one after another; the first failure ends it, and
      every failure is a `std::invalid_argument` (or the empty value the source
      leaves undefined). */
  function Run(st: ParseState, lines: seq<string>): (r: Result<ParseState>)
    requires StateOk(st)
    decreases |lines|
    ensures r.Ok? ==> StateOk(r.value)
    ensures r.Err? ==> r.failure.InvalidArgument? || r.failure == EmptyValue
  {
    if lines == [] then Ok(st)
    else
      match Run(st, lines[..|lines| - 1])
      case Err(f) => Err(f)
      case Ok(s) => Step(s, lines[|lines| - 1])
  }

  function ParseLines(lines: seq<string>): Result<ParseState> {
    Run(Initial, lines)
  }

  /** `operator<<(std::ostream&, const Item&)`: no comment, and no quotes. */
  function RenderItem(it: ItemView): string {
    it.key + "=" + it.value
  }

  function ItemTexts(its: seq<ItemView>): (r: seq<string>)
    ensures |r| == |its|
    ensures forall i :: 0 <= i < |its| ==> r[i] == RenderItem(its[i])
  {
    if its == [] then [] else ItemTexts(its[..|its| - 1]) + [RenderItem(its[|its| - 1])]
  }

  /** `operator<<(std::ostream&, const Section&)`. */
  function RenderSection(s: SectionView): string
    requires forall k :: k in s.itemOrder ==> k in s.items
  {
    "[" + s.name + "]" + "\n" + Join(ItemTexts(R.InOrder(s.itemOrder, s.items)), "\n")
  }

  function SectionTexts(order: seq<string>, sections: map<string, SectionView>): (r: seq<string>)
    requires forall n :: n in order ==> n in sections
    requires forall n :: n in sections ==> forall k :: k in sections[n].itemOrder ==> k in sections[n].items
    ensures |r| == |order|
    ensures forall i :: 0 <= i < |order| ==> r[i] == RenderSection(sections[order[i]])
  {
    if order == [] then []
    else SectionTexts(order[..|order| - 1], sections) + [RenderSection(sections[order[|order| - 1]])]
  }

  /** `operator<<(std::ostream&, const INI&)`. */
  function RenderDoc(d: Doc): string
    requires DocOk(d)
  {
    Join(SectionTexts(d.sectionOrder, d.sections), "\n\n")
  }

  /** A quoted string followed by a tail `VerifyComment` accepts is kept without its
      quotes, whatever the tail holds after its marker. */
  lemma StringRuleOf(q: char, body: string, tail: string)
    requires q !in body && VerifyComment(tail).Pass?
    ensures StringRule([q] + body + [q] + tail) == Ok(body)
  {
    var v := [q] + body + [q] + tail;
    var k := |body| + 1;
    assert forall j :: 1 <= j < k ==> v[j] == body[j - 1];
    assert v[k] == q;
    assert FindFirstOf(v, {q}, 1) == Some(k);
    assert v[1..k] == body && v[k + 1..] == tail;
  }

  /** A number token followed by anything that starts at a cut character is read as
      the token alone: the rest is never looked at. */
  lemma NumberTailDropped(t: string, tail: string)
    requires IsNumberToken(t)
    requires tail != [] ==> tail[0] in G.NumberEnds
    ensures NumberRule(t + tail) == Ok(t)
  {
    var v := t + tail;
    G.NumberTokenUncut(t);
    assert forall j :: 0 <= j < |t| ==> v[j] == t[j];
    if tail == [] {
      assert v == t;
    } else {
      assert v[|t|] == tail[0];
    }
    assert TokenLength(v) == |t|;
    assert v[..|t|] == t;
  }

  /** A header built from a name of letters, with or without a tail that passes
      `VerifyComment` (and does not itself end with `]`), names that section. */
  lemma SectionHeaderOf(name: string, tail: string)
    requires IsLetters(name)
    requires tail != [] ==> tail[|tail| - 1] != ']' && VerifyComment(tail).Pass?
    ensures SectionHeader("[" + name + "]" + tail) == Ok(name)
  {
    var line := "[" + name + "]" + tail;
    if tail == [] {
      assert line[1..|line| - 1] == name;
    } else {
      assert line[|line| - 1] == tail[|tail| - 1];
      forall j | 0 <= j < |name| + 1 ensures line[j] != ']' {
        if j > 0 {
          assert line[j] == name[j - 1];
          assert IsAlphaChar(name[j - 1]);
        }
      }
      assert line[|name| + 1] == ']';
      assert FindFirstOf(line, {']'}, 0) == Some(|name| + 1);
      assert line[1..|name| + 1] == name && line[|name| + 2..] == tail;
    }
  }

  /** Running two blocks of lines is running the first and then, if it succeeded,
      the second from where the first left off. */
  lemma {:induction false} RunAppend(st: ParseState, a: seq<string>, b: seq<string>)
    requires StateOk(st)
    decreases |b|
    ensures Run(st, a).Err? ==> Run(st, a + b) == Run(st, a)
    ensures Run(st, a).Ok? ==> Run(st, a + b) == Run(Run(st, a).value, b)
  {
    if b == [] {
      assert a + b == a;
    } else {
      var b' := b[..|b| - 1];
      RunAppend(st, a, b');
      assert (a + b)[..|a + b| - 1] == a + b';
      assert (a + b)[|a + b| - 1] == b[|b| - 1];
    }
  }

  /** Empty lines and lines starting with `#` or `;` change nothing wherever they
      occur. */
  lemma RunSkipsComments(st: ParseState, a: seq<string>, line: string, b: seq<string>)
    requires StateOk(st)
    requires line == "" || line[0] in G.CommentMarkers
    ensures Run(st, a + [line] + b) == Run(st, a + b)
  {
    RunAppend(st, a + [line], b);
    RunAppend(st, a, b);
    assert (a + [line])[..|a + [line]| - 1] == a;
  }

  /** A header naming a section already filed appends the name again, keeps every
      section as it was and makes the old section active. */
  lemma HeaderReopens(st: ParseState, name: string)
    requires StateOk(st) && IsLetters(name) && name in st.doc.sections
    ensures Step(st, "[" + name + "]") == Ok(ParseState(Doc(st.doc.sectionOrder + [name], st.doc.sections), Some(name)))
  {
    SectionHeaderOf(name, "");
    assert "[" + name + "]" + "" == "[" + name + "]";
  }

  /** One step keeps the document invariants. */
  lemma StepKeepsDocOk(st: ParseState, line: string)
    requires StateOk(st) && DocOk(st.doc)
    ensures Step(st, line).Ok? ==> DocOk(Step(st, line).value.doc)
  {
    if line != "" && line[0] !in G.CommentMarkers && line[0] != '[' {
      match ParseItemLine(line, st.active.Some?)
      case Err(_) =>
      case Ok(it) => FileItemKeepsDocOk(st, it);
    }
  }

  /** Adding an item to the active section keeps the invariants. */
  lemma FileItemKeepsDocOk(st: ParseState, it: ItemView)
    requires StateOk(st) && st.active.Some? && DocOk(st.doc)
    ensures DocOk(FileItem(st, it).doc)
  {
    var n := st.active.value;
    var s := st.doc.sections[n];
    assert SectionOk(n, s);
    assert SectionOk(n, AddItem(s, it));
  }

  /** Every document a parse builds keeps the invariants. */
  lemma {:induction false} RunKeepsDocOk(st: ParseState, lines: seq<string>)
    requires StateOk(st) && DocOk(st.doc)
    decreases |lines|
    ensures Run(st, lines).Ok? ==> DocOk(Run(st, lines).value.doc)
  {
    if lines != [] {
      RunKeepsDocOk(st, lines[..|lines| - 1]);
      match Run(st, lines[..|lines| - 1])
      case Err(_) =>
      case Ok(s) => StepKeepsDocOk(s, lines[|lines| - 1]);
    }
  }
}
