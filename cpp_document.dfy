/** The classes of IniReader.cpp: `Item`, `Section` and `INI`. They are simpler than
    those of IniReader.h: an item holds its key and its text only, and `INI` is
    loaded by its constructor and has no `Save`. As in IniDocument, every class has a
    `Valid()` invariant and a value, and `INI.Parse` is proved to do exactly what
    IniCppGrammar's `Run` specifies. */
module IniCppDocument {
  import opened IniText
  import opened IniExceptions
  import opened IniCppGrammar

  const CannotCast := "Невозможно привести к типу"
  const CannotOpen := "Парсер не смог открыть файл"

  class Item {
    var key: string
    var value: string

    function View(): ItemView
      reads this
    {
      ItemView(key, value)
    }

    /** `Item(key, value)`. */
    constructor (key: string, value: string)
      ensures View() == ItemView(key, value)
    {
      this.key, this.value := key, value;
    }

    /** `Get<std::string>`: the stored text, quotes having been removed when it was
        parsed. */
    function GetString(): (r: string)
      reads this
      ensures r == View().value
    {
      value
    }

    /** `Get<Type>` for any other type: `read` stands for `operator>>` on an
        `istringstream` over the value, `None` for a failed extraction. */
    function GetWith<T>(read: string -> Option<T>): (r: Result<T>)
      reads this
      ensures r.Ok? <==> read(value).Some?
      ensures r.Ok? ==> r.value == read(value).value
      ensures r.Err? ==> r.failure == InvalidArgument(CannotCast)
    {
      match read(value)
      case None => Err(InvalidArgument(CannotCast))
      case Some(x) => Ok(x)
    }

    /** `Set<Type>`: `text` stands for what `operator<<` writes into the
        `ostringstream`; the key is kept and `Get<std::string>` gives the text back. */
    method SetText(text: string)
      modifies this
      ensures View() == old(View()).(value := text)
      ensures GetString() == text
    {
      value := text;
    }
  }

  /** `Section`. The items are held by value, as in the source's
      `std::unordered_map<std::string, Item>`. */
  class Section {
    var name: string
    var itemOrder: seq<string>
    var items: map<string, ItemView>

    /** The order list holds exactly the keys of the map, and every item is filed
        under its own key. */
    ghost predicate Valid()
      reads this
    {
      SectionOk(name, View())
    }

    function View(): (v: SectionView)
      reads this
    {
      SectionView(name, itemOrder, items)
    }

    /** `Section(name)`. */
    constructor (name: string)
      ensures Valid() && View() == SectionView(name, [], map[])
    {
      this.name, itemOrder, items := name, [], map[];
    }

    /** `Add`: the key is appended to the order in every case, while `emplace`
        leaves an item already filed under the key in place. */
    method Add(it: ItemView)
      requires Valid()
      modifies this
      ensures Valid() && name == old(name)
      ensures View() == AddItem(old(View()), it)
    {
      itemOrder := itemOrder + [it.key];
      if it.key !in items {
        items := items[it.key := it];
      }
    }

    /** `operator[]`: `unordered_map::at`, out of range for an unknown key. */
    function At(key: string): (r: Result<ItemView>)
      reads this
      ensures r.Ok? <==> key in items
      ensures r.Ok? ==> r.value == items[key]
      ensures r.Err? ==> r.failure == OutOfRange
    {
      if key in items then Ok(items[key]) else Err(OutOfRange)
    }
  }

  class INI {
    var sectionOrder: seq<string>
    var sections: map<string, Section>
    /** `activeSection`, the section item lines go into. */
    var active: Section?
    /** The name `active` is filed under. */
    ghost var activeName: string
    /** The value of each section, by name. */
    ghost var views: map<string, SectionView>
    ghost var Repr: set<object>

    /** Every section is filed under its own name and holds the value `views` gives
        it; sections are distinct objects, and `Repr` holds them. */
    ghost predicate Filed()
      reads this`sections, this`views, this`Repr, Repr
    {
      && this !in Repr && views.Keys == sections.Keys
      && (forall n :: n in sections ==>
            && sections[n] in Repr && sections[n].Valid() && sections[n].name == n
            && sections[n].View() == views[n])
      && (forall n, m :: n in sections && m in sections && n != m ==> sections[n] != sections[m])
    }

    /** The order lists exactly the filed names, and the active section is filed. */
    ghost predicate Valid()
      reads this, Repr
    {
      && Filed()
      && (forall n :: n in sectionOrder <==> n in sections)
      && (active != null ==> activeName in sections && sections[activeName] == active)
    }

    /** The document: `m_sectionOrder` and the value of every section. */
    function Model(): (d: Doc)
      reads this, Repr
      requires Valid()
      ensures d == Doc(sectionOrder, views) && DocOk(d)
    {
      Doc(sectionOrder, map n | n in sections :: sections[n].View())
    }

    /** The document with the name of the active section, the state `Run` speaks of. */
    ghost function State(): (st: ParseState)
      reads this, Repr
      requires Valid()
      ensures StateOk(st)
    {
      ParseState(Doc(sectionOrder, views), if active == null then None else Some(activeName))
    }

    /** The members as the constructor finds them before `Parse`. */
    constructor Empty()
      ensures Valid() && Repr == {} && State() == Initial
    {
      sectionOrder, sections, active := [], map[], null;
      activeName, views, Repr := "", map[], {};
    }

    /** `ParseSection`: `false` for a line that is not a header; otherwise the header
        is checked and its section appended, created if new, and made active. */
    method ParseSection(line: string) returns (r: Result<bool>)
      requires Valid() && line != ""
      modifies this`sectionOrder, this`sections, this`active, this`activeName, this`views, this`Repr
      ensures Valid() && fresh(Repr - old(Repr))
      ensures r == Ok(false) <==> line[0] != '['
      ensures r == Ok(false) ==> State() == old(State())
      ensures r == Ok(true) ==> HeaderStep(old(State()), line) == Ok(State())
      ensures r.Err? ==> HeaderStep(old(State()), line) == Err(r.failure) && State() == old(State())
    {
      if line[0] != '[' {
        return Ok(false);
      }
      var header := SectionHeader(line);
      if header.Err? {
        return Err(header.failure);
      }
      var name := header.value;
      if name in sections {
        Reopen(name);
      } else {
        Create(name);
      }
      return Ok(true);
    }

    /** The end of `ParseSection` for a name already filed: `emplace` keeps the
        section, which is appended to the order again and made active. */
    method Reopen(name: string)
      requires Valid() && name in sections
      modifies this`sectionOrder, this`active, this`activeName
      ensures Valid() && Repr == old(Repr)
      ensures State() == ParseState(AddSection(old(Model()), name), Some(name))
    {
      sectionOrder, active, activeName := sectionOrder + [name], sections[name], name;
    }

    /** The end of `ParseSection` for a new name: a fresh empty section is filed
        under it, appended to the order and made active. */
    method Create(name: string)
      requires Valid() && name !in sections
      modifies this`sectionOrder, this`sections, this`active, this`activeName, this`views, this`Repr
      ensures Valid() && fresh(Repr - old(Repr))
      ensures State() == ParseState(AddSection(old(Model()), name), Some(name))
    {
      var sec := new Section(name);
      sectionOrder, sections, active, activeName, Repr :=
        sectionOrder + [name], sections[name := sec], sec, name, Repr + {sec};
      views := views[name := sec.View()];
      FiledFresh(name, sec);
    }

    /** Filing a fresh section under a new name, nothing else changed. */
    twostate lemma FiledFresh(name: string, new sec: Section)
      requires old(Filed()) && name !in old(sections) && unchanged(old(Repr))
      requires fresh(sec) && sec.Valid() && sec.name == name && sec.items == map[]
      requires sections == old(sections)[name := sec] && views == old(views)[name := sec.View()]
      requires Repr == old(Repr) + {sec}
      ensures Filed()
    {
    }

    /** `ParseItem`: the line read as an item, which is then added to the active
        section. */
    method ParseItem(line: string) returns (r: Outcome)
      requires Valid()
      modifies this`views, Repr
      ensures Valid() && Repr == old(Repr)
      ensures r.Pass? ==> ItemStep(old(State()), line) == Ok(State())
      ensures r.Fail? ==> ItemStep(old(State()), line) == Err(r.failure) && State() == old(State())
    {
      ghost var st := State();
      var item := ReadItem(line, active != null);
      if item.Err? {
        return Fail(item.failure);
      }
      AddToActive(item.value);
      return Pass;
    }

    /** `activeSection->Add(key, value)`. */
    method AddToActive(it: ItemView)
      requires Valid() && active != null
      modifies this`views, active
      ensures Valid() && Repr == old(Repr)
      ensures State() == FileItem(old(State()), it)
    {
      active.Add(it);
      views := views[activeName := AddItem(views[activeName], it)];
    }

    /** One iteration of the `getline` loop of `Parse`: an empty line and a comment
        line are skipped. */
    method ParseLine(line: string) returns (r: Outcome)
      requires Valid()
      modifies this`sectionOrder, this`sections, this`active, this`activeName, this`views, this`Repr, Repr
      ensures Valid() && fresh(Repr - old(Repr))
      ensures r.Pass? ==> Step(old(State()), line) == Ok(State())
      ensures r.Fail? ==> Step(old(State()), line) == Err(r.failure)
    {
      if line == "" || line[0] == '#' || line[0] == ';' {
        return Pass;
      }
      var header := ParseSection(line);
      if header.Err? {
        return Fail(header.failure);
      }
      if !header.value {
        r := ParseItem(line);
      } else {
        r := Pass;
      }
    }

    /** `Parse`: the lines in order, stopping at the first failure. */
    method Parse(lines: seq<string>) returns (r: Outcome)
      requires Valid()
      modifies this`sectionOrder, this`sections, this`active, this`activeName, this`views, this`Repr, Repr
      ensures Valid() && fresh(Repr - old(Repr))
      ensures r.Pass? <==> Run(old(State()), lines).Ok?
      ensures r.Pass? ==> State() == Run(old(State()), lines).value
      ensures r.Fail? ==> Run(old(State()), lines) == Err(r.failure)
    {
      ghost var start := State();
      var i := 0;
      while i < |lines|
        invariant 0 <= i <= |lines|
        invariant Valid() && fresh(Repr - old(Repr))
        invariant Run(start, lines[..i]) == Ok(State())
      {
        assert lines[..i + 1][..i] == lines[..i];
        r := ParseLine(lines[i]);
        if r.Fail? {
          RunAppend(start, lines[..i + 1], lines[i + 1..]);
          assert lines[..i + 1] + lines[i + 1..] == lines;
          return;
        }
        i := i + 1;
      }
      assert lines[..|lines|] == lines;
      return Pass;
    }

    /** `INI(filename)`: `isOpen` says whether the file could be opened and `lines`
        are the lines `getline` reads from it. */
    static method Load(isOpen: bool, lines: seq<string>) returns (r: Result<INI>)
      ensures !isOpen ==> r == Err(InvalidArgument(CannotOpen))
      ensures isOpen ==> (r.Ok? <==> ParseLines(lines).Ok?)
      ensures isOpen && r.Err? ==> ParseLines(lines) == Err(r.failure)
      ensures r.Ok? ==> fresh(r.value) && fresh(r.value.Repr) && r.value.Valid()
      ensures r.Ok? ==> r.value.State() == ParseLines(lines).value
    {
      if !isOpen {
        return Err(InvalidArgument(CannotOpen));
      }
      var ini := new INI.Empty();
      var outcome := ini.Parse(lines);
      if outcome.Fail? {
        return Err(outcome.failure);
      }
      return Ok(ini);
    }

    /** `operator[]`: `unordered_map::at`, out of range for an unknown name. */
    function Get(name: string): (r: Result<Section>)
      reads this
      ensures r.Ok? <==> name in sections
      ensures r.Ok? ==> r.value == sections[name]
      ensures r.Err? ==> r.failure == OutOfRange
    {
      if name in sections then Ok(sections[name]) else Err(OutOfRange)
    }

    /** `operator<<`. */
    function Text(): string
      reads this, Repr
      requires Valid()
    {
      RenderDoc(Model())
    }
  }
}
