/** The classes of IniReader.h: `Item`, `Section` and `INI`, whose methods update
    their fields in place. Each class has a `Valid()` invariant and a `View()` or
    `Model()` giving its value as an IniGrammar value, and `INI.Parse` is proved to
    do exactly what `Run` specifies. */
module IniDocument {
  import opened IniText
  import opened IniExceptions
  import opened IniGrammar
  import opened IniRender

  /** What `Item::Get<std::string>` makes of a stored value: a value starting with a
      quote loses its first and its last character (`substr(1, size - 2)`, which is
      empty for a lone quote); any other value is returned as it is. */
  function Unquoted(v: string): string
    requires v != ""
  {
    if IsQuote(v[0]) then (if |v| >= 2 then v[1..|v| - 1] else "") else v
  }

  /** What `Item::Set<std::string>` and `Section::AddItem<std::string>` store. */
  function Quoted(s: string): string { "\"" + s + "\"" }

  /** Reading back a stored string gives the string that was stored. */
  lemma UnquoteQuote(s: string)
    ensures Unquoted(Quoted(s)) == s
  {
    assert Quoted(s)[1..|Quoted(s)| - 1] == s;
  }

  const CannotCastPrefix := "It's impossible to case \""
  const CannotCastSuffix := "\" to the passed type"

  class Item {
    var key: string
    var value: string
    var comment: string
    var hasComment: bool

    ghost predicate Valid()
      reads this
    {
      hasComment <==> comment != ""
    }

    function View(): ItemView
      reads this
    {
      ItemView(key, value, comment)
    }

    /** `Item(key, parsedValue)`: the comment is kept, and flagged, only when it is
        not empty. */
    constructor (key: string, parsed: ParsedValue)
      ensures Valid() && View() == ItemOf(key, parsed)
      ensures hasComment <==> parsed.comment != ""
    {
      this.key, value := key, parsed.value;
      if parsed.comment != "" {
        comment, hasComment := parsed.comment, true;
      } else {
        comment, hasComment := "", false;
      }
    }

    /** `Item() = default`. */
    constructor Default()
      ensures Valid() && View() == ItemView("", "", "") && !hasComment
    {
      key, value, comment, hasComment := "", "", "", false;
    }

    /** `Get<std::string>`; `front()` of an empty value is undefined, hence the
        precondition. */
    function GetString(): (r: string)
      reads this
      requires value != ""
      ensures !IsQuote(value[0]) ==> r == value
      ensures IsQuote(value[0]) && |value| >= 2 ==> value == [value[0]] + r + [value[|value| - 1]]
      ensures IsQuote(value[0]) && |value| < 2 ==> r == ""
    {
      Unquoted(value)
    }

    /** `Get<Type>` for any other type: `read` stands for `operator>>` on an
        `istringstream` over the value, `None` for a failed extraction. */
    function GetWith<T>(read: string -> Option<T>): (r: Result<T>)
      reads this
      ensures r.Ok? <==> read(value).Some?
      ensures r.Ok? ==> r.value == read(value).value
      ensures r.Err? ==> r.failure == Raised(Raise(InvalidCastException, CannotCastPrefix + value + CannotCastSuffix))
    {
      match read(value)
      case None => Err(Raised(Raise(InvalidCastException, CannotCastPrefix + value + CannotCastSuffix)))
      case Some(x) => Ok(x)
    }

    /** `Set<std::string>`: the string is stored between double quotes, so that
        `Get<std::string>` gives it back. */
    method SetString(s: string)
      requires Valid()
      modifies this
      ensures Valid() && View() == old(View()).(value := Quoted(s))
      ensures GetString() == s
    {
      value := Quoted(s);
      UnquoteQuote(s);
    }

    /** `Set<Type>` for any other type: `text` stands for what `operator<<` writes
        into the `ostringstream`. */
    method SetText(text: string)
      requires Valid()
      modifies this
      ensures Valid() && View() == old(View()).(value := text)
    {
      value := text;
    }
  }

  /** `Section`. The items are held by value, as in the source's
      `std::unordered_map<std::string, Item>`. */
  class Section {
    var name: string
    var itemOrder: seq<string>
    var items: map<string, ItemView>

    /** The order list holds exactly the keys of the map, and every item is filed
        under its own key. */
    ghost predicate Valid()
      reads this
    {
      SectionOk(name, View())
    }

    function View(): (v: SectionView)
      reads this
    {
      SectionView(name, itemOrder, items)
    }

    /** `Section(name)`. */
    constructor (name: string)
      ensures Valid() && View() == SectionView(name, [], map[])
    {
      this.name, itemOrder, items := name, [], map[];
    }

    /** `Add`: the key is appended to the order in every case, while `emplace`
        leaves an item already filed under the key in place. */
    method Add(key: string, parsed: ParsedValue)
      requires Valid()
      modifies this
      ensures Valid() && name == old(name)
      ensures View() == AddItem(old(View()), key, parsed)
    {
      itemOrder := itemOrder + [key];
      if key !in items {
        items := items[key := ItemOf(key, parsed)];
      }
    }

    /** `CheckKey`: the key must pass `IsAlpha` and must not be filed yet. */
    function CheckKey(key: string): (r: Outcome)
      reads this
      ensures r == Pass <==> IsAlpha(key) && key !in items
      ensures !IsAlpha(key) ==> r == Fail(Raised(Raise(KeyException, KeyLetters)))
      ensures IsAlpha(key) && key in items ==>
        r == Fail(Raised(Raise(ItemException, "Item with key \"" + key + "\" already exists")))
    {
      if !IsAlpha(key) then Fail(Raised(Raise(KeyException, KeyLetters)))
      else if key in items then Fail(Raised(Raise(ItemException, "Item with key \"" + key + "\" already exists")))
      else Pass
    }

    /** `AddItem<std::string>`: a new key gets the string between double quotes and
        no comment, and reading it back gives the string. */
    method AddItemString(key: string, s: string) returns (r: Outcome)
      requires Valid()
      modifies this
      ensures Valid()
      ensures r == old(CheckKey(key))
      ensures r.Fail? ==> View() == old(View())
      ensures r.Pass? ==> View() == AddItem(old(View()), key, ParsedValue(Quoted(s), ""))
      ensures r.Pass? ==> key in items && Unquoted(items[key].value) == s
    {
      r := CheckKey(key);
      if r.Pass? {
        Add(key, ParsedValue(Quoted(s), ""));
        UnquoteQuote(s);
      }
    }

    /** `AddItem<Type>` for any other type, `text` standing for the value's stream
        output. */
    method AddItemText(key: string, text: string) returns (r: Outcome)
      requires Valid()
      modifies this
      ensures Valid()
      ensures r == old(CheckKey(key))
      ensures r.Fail? ==> View() == old(View())
      ensures r.Pass? ==> View() == AddItem(old(View()), key, ParsedValue(text, ""))
    {
      r := CheckKey(key);
      if r.Pass? {
        Add(key, ParsedValue(text, ""));
      }
    }

    /** `operator[]`: the item filed under the key, or an `ItemException` naming the
        missing key. */
    function At(key: string): (r: Result<ItemView>)
      reads this
      ensures r.Ok? <==> key in items
      ensures r.Ok? ==> r.value == items[key]
      ensures r.Err? ==>
        r.failure == Raised(Raise(ItemException, "The item with the key \"" + key + "\" does not exist"))
    {
      if key in items then Ok(items[key])
      else Err(Raised(Raise(ItemException, "The item with the key \"" + key + "\" does not exist")))
    }

    /** `HasItem`: exactly the keys `operator[]` finds. */
    function HasItem(key: string): (r: bool)
      reads this
      ensures r <==> At(key).Ok?
    {
      key in items
    }
  }

  /** The checks of `ParseItem` in the source's order: one `=`, an active section, a
      key of letters and digits, a value that is not empty, then the quoted or the
      numeric rule. */
  method ReadItem(line: string, hasActive: bool) returns (r: Result<ParsedItem>)
    ensures r == ParseItemLine(line, hasActive)
  {
    if Count(line, '=') != 1 {
      return Err(Raised(Raise(ItemException, EqualsCount)));
    }
    if !hasActive {
      return Err(Raised(Raise(IniReaderException, GlobalItem)));
    }
    var delim := IndexOf(line, '=');
    var key := Strip(line[..delim]);
    if !IsAlpha(key) {
      return Err(Raised(Raise(KeyException, KeyLetters)));
    }
    var value := Strip(line[delim + 1..]);
    if value == "" {
      return Err(EmptyValue);
    }
    var parsed: Result<ParsedValue>;
    if IsQuote(value[0]) {
      parsed := ParseString(value);
    } else {
      parsed := ParseNumber(value);
    }
    if parsed.Err? {
      return Err(parsed.failure);
    }
    return Ok(ParsedItem(key, parsed.value));
  }

  const CannotRead := "Can't open file for reading"
  const CannotWrite := "Can't open file for writing"

  class INI {
    var sectionOrder: seq<string>
    var sections: map<string, Section>
    /** `activeSection`, the section item lines go into. */
    var active: Section?
    var writeState: bool
    /** The name `active` is filed under. */
    ghost var activeName: string
    /** The value of each section, by name. */
    ghost var views: map<string, SectionView>
    ghost var Repr: set<object>

    /** Every section is filed under its own name and holds the value `views` gives
        it; sections are distinct objects, and `Repr` holds them. */
    ghost predicate Filed()
      reads this`sections, this`views, this`Repr, Repr
    {
      && this !in Repr && views.Keys == sections.Keys
      && (forall n :: n in sections ==>
            && sections[n] in Repr && sections[n].Valid() && sections[n].name == n
            && sections[n].View() == views[n])
      && (forall n, m :: n in sections && m in sections && n != m ==> sections[n] != sections[m])
    }

    /** The order lists exactly the filed names, and the active section is filed. */
    ghost predicate Valid()
      reads this`sectionOrder, this`sections, this`active, this`activeName, this`views, this`Repr, Repr
    {
      && Filed()
      && (forall n :: n in sectionOrder <==> n in sections)
      && (active != null ==> activeName in sections && sections[activeName] == active)
    }

    /** The document: `m_sectionOrder` and the value of every section. */
    function Model(): (d: Doc)
      reads this`sectionOrder, this`sections, this`active, this`activeName, this`views, this`Repr, Repr
      requires Valid()
      ensures d == Doc(sectionOrder, views) && DocOk(d)
    {
      Doc(sectionOrder, map n | n in sections :: sections[n].View())
    }

    /** The document with the name of the active section, the state `Run` speaks of. */
    ghost function State(): (st: ParseState)
      reads this`sectionOrder, this`sections, this`active, this`activeName, this`views, this`Repr, Repr
      requires Valid()
      ensures StateOk(st)
    {
      ParseState(Doc(sectionOrder, views), if active == null then None else Some(activeName))
    }

    /** A document with no sections yet, before `Parse`. */
    constructor Empty()
      ensures Valid() && Repr == {} && State() == Initial && !writeState
    {
      sectionOrder, sections, active, writeState := [], map[], null, false;
      activeName, views, Repr := "", map[], {};
    }

    /** `ParseSection`: `false` for a line that is not a header; otherwise the header
        is checked and its section appended, created if new, and made active. */
    method ParseSection(line: string) returns (r: Result<bool>)
      requires Valid() && line != ""
      modifies this`sectionOrder, this`sections, this`active, this`activeName, this`views, this`Repr
      ensures Valid() && fresh(Repr - old(Repr))
      ensures r == Ok(false) <==> line[0] != '['
      ensures r == Ok(false) ==> State() == old(State())
      ensures r == Ok(true) ==> HeaderStep(old(State()), line) == Ok(State())
      ensures r.Err? ==> HeaderStep(old(State()), line) == Err(r.failure) && State() == old(State())
    {
      if line[0] != '[' {
        return Ok(false);
      }
      var header := SectionHeader(line);
      if header.Err? {
        return Err(header.failure);
      }
      var name := header.value;
      if name in sections {
        Reopen(name);
      } else {
        Create(name);
      }
      return Ok(true);
    }

    /** The end of `ParseSection` for a name already filed: `emplace` keeps the
        section, which is appended to the order again and made active. */
    method Reopen(name: string)
      requires Valid() && name in sections
      modifies this`sectionOrder, this`active, this`activeName
      ensures Valid() && Repr == old(Repr)
      ensures State() == ParseState(AddSection(old(Model()), name), Some(name))
    {
      sectionOrder, active, activeName := sectionOrder + [name], sections[name], name;
    }

    /** The end of `ParseSection` for a new name: a fresh empty section is filed
        under it, appended to the order and made active. */
    method Create(name: string)
      requires Valid() && name !in sections
      modifies this`sectionOrder, this`sections, this`active, this`activeName, this`views, this`Repr
      ensures Valid() && fresh(Repr - old(Repr))
      ensures State() == ParseState(AddSection(old(Model()), name), Some(name))
    {
      var sec := new Section(name);
      sectionOrder, sections, active, activeName, Repr :=
        sectionOrder + [name], sections[name := sec], sec, name, Repr + {sec};
      views := views[name := sec.View()];
      FiledFresh(name, sec);
    }

    /** Filing a fresh section under a new name, nothing else changed. */
    twostate lemma FiledFresh(name: string, new sec: Section)
      requires old(Filed()) && name !in old(sections) && unchanged(old(Repr))
      requires fresh(sec) && sec.Valid() && sec.name == name && sec.items == map[]
      requires sections == old(sections)[name := sec] && views == old(views)[name := sec.View()]
      requires Repr == old(Repr) + {sec}
      ensures Filed()
    {
    }

    /** `ParseItem`: the line read as an item, which is then added to the active
        section. */
    method ParseItem(line: string) returns (r: Outcome)
      requires Valid()
      modifies this`views, Repr
      ensures Valid() && Repr == old(Repr)
      ensures r.Pass? ==> ItemStep(old(State()), line) == Ok(State())
      ensures r.Fail? ==> ItemStep(old(State()), line) == Err(r.failure) && State() == old(State())
    {
      var item := ReadItem(line, active != null);
      if item.Err? {
        return Fail(item.failure);
      }
      AddToActive(item.value.key, item.value.parsed);
      return Pass;
    }

    /** `activeSection->Add(key, parsedValue)`. */
    method AddToActive(key: string, parsed: ParsedValue)
      requires Valid() && active != null
      modifies this`views, active
      ensures Valid() && Repr == old(Repr)
      ensures State() == FileItem(old(State()), key, parsed)
    {
      active.Add(key, parsed);
      views := views[activeName := AddItem(views[activeName], key, parsed)];
    }

    /** One iteration of the `getline` loop of `Parse`. */
    method ParseLine(line: string) returns (r: Outcome)
      requires Valid()
      modifies this`sectionOrder, this`sections, this`active, this`activeName, this`views, this`Repr, Repr
      ensures Valid() && fresh(Repr - old(Repr))
      ensures r.Pass? ==> Step(old(State()), line) == Ok(State())
      ensures r.Fail? ==> Step(old(State()), line) == Err(r.failure)
    {
      if line == "" {
        return Pass;
      }
      if line[0] == '#' || line[0] == ';' {
        return Fail(InvalidArgument(CommentLineMessage));
      }
      var header := ParseSection(line);
      if header.Err? {
        return Fail(header.failure);
      }
      if !header.value {
        r := ParseItem(line);
      } else {
        r := Pass;
      }
    }

    /** `Parse`: the lines in order, stopping at the first failure. */
    method Parse(lines: seq<string>) returns (r: Outcome)
      requires Valid()
      modifies this`sectionOrder, this`sections, this`active, this`activeName, this`views, this`Repr, Repr
      ensures Valid() && fresh(Repr - old(Repr))
      ensures r.Pass? <==> Run(old(State()), lines).Ok?
      ensures r.Pass? ==> State() == Run(old(State()), lines).value
      ensures r.Fail? ==> Run(old(State()), lines) == Err(r.failure)
    {
      ghost var start := State();
      var i := 0;
      while i < |lines|
        invariant 0 <= i <= |lines|
        invariant Valid() && fresh(Repr - old(Repr))
        invariant Run(start, lines[..i]) == Ok(State())
      {
        assert lines[..i + 1][..i] == lines[..i];
        r := ParseLine(lines[i]);
        if r.Fail? {
          RunFailsEarly(start, lines, i + 1);
          return;
        }
        i := i + 1;
      }
      assert lines[..|lines|] == lines;
      return Pass;
    }

    /** `INI(filename)`: `isOpen` says whether the file could be opened and `lines`
        are the lines `getline` reads from it. */
    static method Load(isOpen: bool, lines: seq<string>) returns (r: Result<INI>)
      ensures !isOpen ==> r == Err(Raised(Raise(IniReaderException, CannotRead)))
      ensures isOpen ==> (r.Ok? <==> ParseLines(lines).Ok?)
      ensures isOpen && r.Err? ==> ParseLines(lines) == Err(r.failure)
      ensures r.Ok? ==> fresh(r.value) && fresh(r.value.Repr) && r.value.Valid()
      ensures r.Ok? ==> r.value.State() == ParseLines(lines).value && !r.value.writeState
    {
      if !isOpen {
        return Err(Raised(Raise(IniReaderException, CannotRead)));
      }
      var ini := new INI.Empty();
      var outcome := ini.Parse(lines);
      if outcome.Fail? {
        return Err(outcome.failure);
      }
      return Ok(ini);
    }

    /** `operator[]`: `unordered_map::at`, out of range for an unknown name. */
    function Get(name: string): (r: Result<Section>)
      reads this
      ensures r.Ok? <==> name in sections
      ensures r.Ok? ==> r.value == sections[name]
      ensures r.Err? ==> r.failure == OutOfRange
    {
      if name in sections then Ok(sections[name]) else Err(OutOfRange)
    }

    /** `operator<<`. */
    function Text(): string
      reads this`sectionOrder, this`sections, this`active, this`activeName, this`views, this`Repr, Repr
      requires Valid()
    {
      RenderDoc(Model())
    }

    /** `Save`: `m_writeState` is raised before the file is opened and lowered once
        the text is written, so a failed open leaves it raised and a save that
        succeeds leaves it lowered. `isOpen` says whether the file could be opened
        for writing; the text written is returned. */
    method Save(isOpen: bool) returns (r: Result<string>)
      requires Valid()
      modifies this`writeState
      ensures Valid()
      ensures writeState <==> !isOpen
      ensures !isOpen ==> r == Err(Raised(Raise(IniReaderException, CannotWrite)))
      ensures isOpen ==> r == Ok(Text())
    {
      r := if isOpen then Ok(Text()) else Err(Raised(Raise(IniReaderException, CannotWrite)));
      writeState := !isOpen;
    }
  }
}
