/** The document round trip of IniReader.h: the text `operator<<` writes for a
    document, cut into lines as `std::getline` does and parsed from the empty
    document, gives the document back. Every document a parse builds from
    single-line input qualifies as long as no section header is repeated. */
module IniRoundTrip {
  import opened IniText
  import opened IniExceptions
  import opened IniGrammar
  import opened IniRender
  import opened IniProperties

  /** An item `operator<<` writes as one line that reads back to the same item. */
  predicate ItemReadable(it: ItemView) {
    var line := RenderItem(it);
    '\n' !in line && ParseItemLine(line, true) == Ok(ParsedItem(it.key, ParsedValue(it.value, it.comment)))
  }

  /** The items of a section all read back. */
  predicate ItemsReadable(s: SectionView) {
    forall k {:trigger ItemReadable(s.items[k])} :: k in s.items ==> ItemReadable(s.items[k])
  }

  /** Section names a header accepts, and items that read back. */
  predicate SectionsReadable(d: Doc) {
    forall n :: n in d.sections ==> IsAlpha(n) && ItemsReadable(d.sections[n])
  }

  /** A document whose written text reads back: consistent, no section listed
      twice, and every section and item readable. */
  ghost predicate Readable(d: Doc) {
    && DocOk(d)
    && (forall i, j :: 0 <= i < j < |d.sectionOrder| ==> d.sectionOrder[i] != d.sectionOrder[j])
    && SectionsReadable(d)
  }

  /** Every name of `order` is filed in `secs`, with all its keys. */
  predicate Listed(order: seq<string>, secs: map<string, SectionView>) {
    forall n :: n in order ==> n in secs && forall k :: k in secs[n].itemOrder ==> k in secs[n].items
  }

  /** Every name of `order` is filed in `secs` as a consistent, readable section. */
  ghost predicate Sound(order: seq<string>, secs: map<string, SectionView>) {
    forall n :: n in order ==> n in secs && SectionOk(n, secs[n]) && IsAlpha(n) && ItemsReadable(secs[n])
  }

  lemma SoundListed(order: seq<string>, secs: map<string, SectionView>)
    requires Sound(order, secs)
    ensures Listed(order, secs)
  {
    forall n | n in order ensures forall k :: k in secs[n].itemOrder ==> k in secs[n].items {
      assert SectionOk(n, secs[n]);
    }
  }

  /** The lines of a section's text: its header, then its items in order, or one
      empty line when it has none. */
  function SectionLines(s: SectionView): (r: seq<string>)
    requires forall k :: k in s.itemOrder ==> k in s.items
    ensures |r| >= 2 && r[0] == "[" + s.name + "]"
  {
    ["[" + s.name + "]"] + (if s.itemOrder == [] then [""] else ItemTexts(InOrder(s.itemOrder, s.items)))
  }

  /** The lines of a document's text: its sections' lines, an empty line between
      two sections. */
  function DocLines(order: seq<string>, secs: map<string, SectionView>): (r: seq<string>)
    requires Listed(order, secs)
    ensures order != [] ==> r != []
  {
    if order == [] then []
    else if |order| == 1 then SectionLines(secs[order[0]])
    else DocLines(order[..|order| - 1], secs) + [""] + SectionLines(secs[order[|order| - 1]])
  }

  /** Joining two non-empty lists is joining each and putting one separator between. */
  lemma {:induction false} JoinAppend(a: seq<string>, b: seq<string>, sep: string)
    requires a != [] && b != []
    decreases |a|
    ensures Join(a + b, sep) == Join(a, sep) + sep + Join(b, sep)
  {
    if |a| == 1 {
      assert (a + b)[1..] == b;
    } else {
      assert (a + b)[1..] == a[1..] + b;
      JoinAppend(a[1..], b, sep);
    }
  }

  /** A section's text is its lines joined by line feeds. */
  lemma SectionText(s: SectionView)
    requires forall k :: k in s.itemOrder ==> k in s.items
    ensures RenderSection(s) == Join(SectionLines(s), "\n")
  {
    var h := "[" + s.name + "]";
    var body := if s.itemOrder == [] then [""] else ItemTexts(InOrder(s.itemOrder, s.items));
    assert SectionLines(s) == [h] + body;
    JoinAppend([h], body, "\n");
    if s.itemOrder == [] {
      assert ItemTexts(InOrder(s.itemOrder, s.items)) == [];
    }
  }

  /** A document's text is its lines joined by line feeds: a blank line between
      sections is `"\n\n"`. */
  lemma {:induction false} DocText(order: seq<string>, secs: map<string, SectionView>)
    requires order != [] && Listed(order, secs)
    requires forall n :: n in secs ==> forall k :: k in secs[n].itemOrder ==> k in secs[n].items
    decreases |order|
    ensures Join(SectionTexts(order, secs), "\n\n") == Join(DocLines(order, secs), "\n")
  {
    var last := secs[order[|order| - 1]];
    SectionText(last);
    if |order| == 1 {
      assert SectionTexts(order, secs) == [RenderSection(last)];
    } else {
      var init := order[..|order| - 1];
      DocText(init, secs);
      assert SectionTexts(order, secs) == SectionTexts(init, secs) + [RenderSection(last)];
      JoinSeparated(SectionTexts(init, secs), DocLines(init, secs), RenderSection(last), SectionLines(last));
    }
  }

  /** Two blocks joined with a blank line between them, as texts and as lines. */
  lemma JoinSeparated(texts: seq<string>, lines: seq<string>, t: string, block: seq<string>)
    requires texts != [] && lines != [] && block != []
    requires Join(texts, "\n\n") == Join(lines, "\n") && t == Join(block, "\n")
    ensures Join(texts + [t], "\n\n") == Join(lines + [""] + block, "\n")
  {
    JoinAppend(texts, [t], "\n\n");
    JoinAppend(lines, [""], "\n");
    JoinAppend(lines + [""], block, "\n");
    assert Join(lines, "\n") + "\n\n" + t == Join(lines, "\n") + "\n" + "" + "\n" + t;
  }

  /** A header of letters and digits is one line. */
  lemma HeaderOneLine(name: string)
    requires IsAlpha(name)
    ensures '\n' !in "[" + name + "]"
  {
    var h := "[" + name + "]";
    forall j | 0 <= j < |h| ensures h[j] != '\n' {
      if 0 < j < |h| - 1 {
        assert h[j] == name[j - 1];
      }
    }
  }

  /** No line holds a line feed. */
  predicate OneLines(lines: seq<string>) {
    forall j :: 0 <= j < |lines| ==> '\n' !in lines[j]
  }

  lemma OneLinesSeparated(a: seq<string>, b: seq<string>)
    requires OneLines(a) && OneLines(b)
    ensures OneLines(a + [""] + b)
  {
    var c := a + [""] + b;
    forall j | 0 <= j < |c| ensures '\n' !in c[j] {
      if j < |a| {
        assert c[j] == a[j];
      } else if j > |a| {
        assert c[j] == b[j - |a| - 1];
      }
    }
  }

  /** Every line of a readable section is one line. */
  lemma SectionOneLine(s: SectionView)
    requires IsAlpha(s.name) && ItemsReadable(s)
    requires forall k :: k in s.itemOrder ==> k in s.items
    ensures OneLines(SectionLines(s))
  {
    HeaderOneLine(s.name);
    if s.itemOrder != [] {
      var texts := ItemTexts(InOrder(s.itemOrder, s.items));
      forall j | 0 <= j < |texts| ensures '\n' !in texts[j] {
        assert ItemReadable(s.items[s.itemOrder[j]]);
      }
    }
  }

  /** Every line of a readable document is one line. */
  lemma {:induction false} DocOneLine(order: seq<string>, secs: map<string, SectionView>)
    requires Listed(order, secs) && Sound(order, secs)
    decreases |order|
    ensures OneLines(DocLines(order, secs))
  {
    if order != [] {
      var n := order[|order| - 1];
      assert OneLines(SectionLines(secs[n])) by {
        assert SectionOk(n, secs[n]) && IsAlpha(n) && ItemsReadable(secs[n]);
        SectionOneLine(secs[n]);
      }
      if |order| > 1 {
        var init := order[..|order| - 1];
        DocOneLine(init, secs);
        assert DocLines(order, secs) == DocLines(init, secs) + [""] + SectionLines(secs[n]);
        OneLinesSeparated(DocLines(init, secs), SectionLines(secs[n]));
      }
    }
  }

  /** The pieces between the line feeds of the text written for a readable
      document: one empty piece for the empty document, its lines otherwise. */
  lemma RenderedPieces(d: Doc)
    requires Readable(d)
    ensures Split(RenderDoc(d), '\n') == if d.sectionOrder == [] then [""] else DocLines(d.sectionOrder, d.sections)
  {
    if d.sectionOrder == [] {
      assert SectionTexts(d.sectionOrder, d.sections) == [];
      assert FindFirstOf("", {'\n'}, 0).None?;
    } else {
      assert Sound(d.sectionOrder, d.sections);
      SoundListed(d.sectionOrder, d.sections);
      DocText(d.sectionOrder, d.sections);
      DocOneLine(d.sectionOrder, d.sections);
      SplitJoin(DocLines(d.sectionOrder, d.sections), '\n');
    }
  }

  /** The last line of a document's lines is empty exactly when its last section
      has no items (`std::endl` after a bare header). */
  lemma LastDocLine(order: seq<string>, secs: map<string, SectionView>)
    requires Listed(order, secs) && order != []
    ensures var r := DocLines(order, secs);
      r[|r| - 1] == "" <==> secs[order[|order| - 1]].itemOrder == []
  {
    var s := secs[order[|order| - 1]];
    var sl := SectionLines(s);
    assert DocLines(order, secs)[|DocLines(order, secs)| - 1] == sl[|sl| - 1];
    if s.itemOrder != [] {
      var its := InOrder(s.itemOrder, s.items);
      assert sl[|sl| - 1] == RenderItem(its[|its| - 1]);
      assert '=' in RenderItem(its[|its| - 1]);
    }
  }

  /** The lines `std::getline` reads back from the text written for a readable
      document: none for the empty document; otherwise its lines, save the empty
      line after a last section without items, which the last line feed ends. */
  lemma RenderedLines(d: Doc)
    requires Readable(d)
    ensures d.sectionOrder == [] ==> FileLines(RenderDoc(d)) == []
    ensures d.sectionOrder != [] ==>
      FileLines(RenderDoc(d)) + (if d.sections[d.sectionOrder[|d.sectionOrder| - 1]].itemOrder == [] then [""] else [])
        == DocLines(d.sectionOrder, d.sections)
  {
    var text := RenderDoc(d);
    RenderedPieces(d);
    FileLinesPieces(text);
    if d.sectionOrder != [] {
      assert Sound(d.sectionOrder, d.sections);
      SoundListed(d.sectionOrder, d.sections);
      LastDocLine(d.sectionOrder, d.sections);
    }
  }

  /** The section as far as its first `p` keys: what the parse has filed after the
      header and `p` item lines. */
  function Partial(s: SectionView, p: nat): (r: SectionView)
    requires p <= |s.itemOrder|
    ensures r.name == s.name && r.itemOrder == s.itemOrder[..p]
  {
    SectionView(s.name, s.itemOrder[..p], map k | k in s.items && k in s.itemOrder[..p] :: s.items[k])
  }

  /** Filing the item of key `p - 1` extends the partial section by one key. */
  lemma PartialNext(s: SectionView, p: nat)
    requires SectionOk(s.name, s) && 0 < p <= |s.itemOrder|
    ensures var it := s.items[s.itemOrder[p - 1]];
      Partial(s, p) == AddItem(Partial(s, p - 1), s.itemOrder[p - 1], ParsedValue(it.value, it.comment))
  {
    var key := s.itemOrder[p - 1];
    var it := s.items[key];
    assert ItemOf(key, ParsedValue(it.value, it.comment)) == it;
    assert s.itemOrder[..p] == s.itemOrder[..p - 1] + [key];
    var before := Partial(s, p - 1).items;
    var after := Partial(s, p).items;
    if key in before {
      assert after == before;
    } else {
      assert after == before[key := it];
    }
  }

  /** The parse state after the header of `s` and its first `p` item lines. */
  function Filing(order: seq<string>, secs: map<string, SectionView>, s: SectionView, p: nat): (r: ParseState)
    requires p <= |s.itemOrder|
    ensures StateOk(r)
  {
    ParseState(Doc(order, secs[s.name := Partial(s, p)]), Some(s.name))
  }

  /** Running one more line is one more step. */
  lemma RunSnoc(st: ParseState, a: seq<string>, x: string)
    requires StateOk(st)
    ensures Run(st, a + [x]) == if Run(st, a).Err? then Run(st, a) else Step(Run(st, a).value, x)
  {
    assert (a + [x])[..|a|] == a;
  }

  /** The lines of the first `p` items are those of the first `p - 1` and one more. */
  lemma ItemTextsSnoc(s: SectionView, p: nat)
    requires forall k :: k in s.itemOrder ==> k in s.items
    requires 0 < p <= |s.itemOrder|
    ensures ItemTexts(InOrder(s.itemOrder[..p], s.items))
      == ItemTexts(InOrder(s.itemOrder[..p - 1], s.items)) + [RenderItem(s.items[s.itemOrder[p - 1]])]
  {
  }

  /** A readable item's line, read in a section, files that item. */
  lemma ItemLineStep(st: ParseState, it: ItemView)
    requires StateOk(st) && st.active.Some? && ItemReadable(it)
    ensures Step(st, RenderItem(it)) == Ok(FileItem(st, it.key, ParsedValue(it.value, it.comment)))
  {
    ItemLineIsItem(RenderItem(it));
    assert Step(st, RenderItem(it)) == ItemStep(st, RenderItem(it));
  }

  /** Filing item `p - 1` of `s` takes the parse from one partial section to the next. */
  lemma FilingNext(order: seq<string>, secs: map<string, SectionView>, s: SectionView, p: nat)
    requires SectionOk(s.name, s) && 0 < p <= |s.itemOrder|
    ensures var it := s.items[s.itemOrder[p - 1]];
      Filing(order, secs, s, p) == FileItem(Filing(order, secs, s, p - 1), it.key, ParsedValue(it.value, it.comment))
  {
    PartialNext(s, p);
    assert secs[s.name := Partial(s, p - 1)][s.name := Partial(s, p)] == secs[s.name := Partial(s, p)];
  }

  /** The item lines of a section read back one by one into its partial sections. */
  lemma {:induction false} ItemsRead(order: seq<string>, secs: map<string, SectionView>, s: SectionView, p: nat)
    requires SectionOk(s.name, s) && p <= |s.itemOrder| && ItemsReadable(s)
    decreases p
    ensures Run(Filing(order, secs, s, 0), ItemTexts(InOrder(s.itemOrder[..p], s.items))) == Ok(Filing(order, secs, s, p))
  {
    if p > 0 {
      var st := Filing(order, secs, s, 0);
      var before := ItemTexts(InOrder(s.itemOrder[..p - 1], s.items));
      var it := s.items[s.itemOrder[p - 1]];
      var pv := ParsedValue(it.value, it.comment);
      assert Run(st, before) == Ok(Filing(order, secs, s, p - 1)) by {
        ItemsRead(order, secs, s, p - 1);
      }
      assert ItemTexts(InOrder(s.itemOrder[..p], s.items)) == before + [RenderItem(it)] by {
        ItemTextsSnoc(s, p);
      }
      assert Run(st, before + [RenderItem(it)]) == Step(Filing(order, secs, s, p - 1), RenderItem(it)) by {
        RunSnoc(st, before, RenderItem(it));
      }
      assert Step(Filing(order, secs, s, p - 1), RenderItem(it))
        == Ok(FileItem(Filing(order, secs, s, p - 1), it.key, pv)) by {
        assert ItemReadable(it);
        ItemLineStep(Filing(order, secs, s, p - 1), it);
      }
      assert FileItem(Filing(order, secs, s, p - 1), it.key, pv) == Filing(order, secs, s, p) by {
        FilingNext(order, secs, s, p);
      }
    } else {
      assert s.itemOrder[..0] == [];
    }
  }

  /** A header for a section not yet filed files it empty and makes it active. */
  lemma HeaderRead(st: ParseState, s: SectionView)
    requires StateOk(st) && s.name !in st.doc.sections && IsAlpha(s.name)
    ensures Run(st, ["[" + s.name + "]"]) == Ok(Filing(st.doc.sectionOrder + [s.name], st.doc.sections, s, 0))
  {
    var h := "[" + s.name + "]";
    SectionHeaderOf(s.name, "");
    assert h + "" == h;
    assert Partial(s, 0) == SectionView(s.name, [], map[]);
    RunSnoc(st, [], h);
    assert [] + [h] == [h];
  }

  /** The lines after a section's header file all its items. */
  lemma BodyRead(order: seq<string>, secs: map<string, SectionView>, s: SectionView)
    requires SectionOk(s.name, s) && ItemsReadable(s)
    ensures var body := if s.itemOrder == [] then [""] else ItemTexts(InOrder(s.itemOrder, s.items));
      Run(Filing(order, secs, s, 0), body) == Ok(ParseState(Doc(order, secs[s.name := s]), Some(s.name)))
  {
    var st := Filing(order, secs, s, 0);
    assert Partial(s, |s.itemOrder|) == s by {
      assert s.itemOrder[..|s.itemOrder|] == s.itemOrder;
    }
    if s.itemOrder == [] {
      RunSnoc(st, [], "");
      assert [] + [""] == [""];
    } else {
      ItemsRead(order, secs, s, |s.itemOrder|);
      assert s.itemOrder[..|s.itemOrder|] == s.itemOrder;
    }
  }

  /** A section's lines, read after the sections before it, add it whole and leave
      it active. */
  lemma SectionRead(st: ParseState, s: SectionView)
    requires StateOk(st) && s.name !in st.doc.sections
    requires SectionOk(s.name, s) && IsAlpha(s.name) && ItemsReadable(s)
    ensures Run(st, SectionLines(s))
      == Ok(ParseState(Doc(st.doc.sectionOrder + [s.name], st.doc.sections[s.name := s]), Some(s.name)))
  {
    var h := "[" + s.name + "]";
    var body := if s.itemOrder == [] then [""] else ItemTexts(InOrder(s.itemOrder, s.items));
    assert SectionLines(s) == [h] + body;
    HeaderRead(st, s);
    RunAppend(st, [h], body);
    BodyRead(st.doc.sectionOrder + [s.name], st.doc.sections, s);
  }

  /** The sections named in `order`, each filed under its name. */
  function Filed(order: seq<string>, secs: map<string, SectionView>): (r: map<string, SectionView>)
    requires forall n :: n in order ==> n in secs
    ensures forall n :: n in r <==> n in order
  {
    map n | n in order :: secs[n]
  }

  /** The lines of a document's sections read back, from the empty document, into
      those sections in that order, the last one active. */
  lemma {:induction false} DocRead(order: seq<string>, secs: map<string, SectionView>)
    requires order != [] && Listed(order, secs) && Sound(order, secs)
    requires forall i, j :: 0 <= i < j < |order| ==> order[i] != order[j]
    decreases |order|
    ensures Run(Initial, DocLines(order, secs)) == Ok(ParseState(Doc(order, Filed(order, secs)), Some(order[|order| - 1])))
  {
    if |order| == 1 {
      DocReadFirst(order, secs);
    } else {
      FrontSound(order, secs);
      DocRead(order[..|order| - 1], secs);
      DocReadNext(order, secs);
    }
  }

  /** The front of a list of distinct, sound sections is one too. */
  lemma FrontSound(order: seq<string>, secs: map<string, SectionView>)
    requires order != [] && Listed(order, secs) && Sound(order, secs)
    requires forall i, j :: 0 <= i < j < |order| ==> order[i] != order[j]
    ensures var init := order[..|order| - 1];
      && Listed(init, secs) && Sound(init, secs)
      && (forall i, j :: 0 <= i < j < |init| ==> init[i] != init[j])
      && order[|order| - 1] !in init
  {
    var init := order[..|order| - 1];
    forall j | 0 <= j < |init| ensures init[j] != order[|order| - 1] {
      assert init[j] == order[j];
    }
  }

  /** A single section's lines read from the empty document. */
  lemma DocReadFirst(order: seq<string>, secs: map<string, SectionView>)
    requires |order| == 1 && Listed(order, secs) && Sound(order, secs)
    ensures Run(Initial, DocLines(order, secs)) == Ok(ParseState(Doc(order, Filed(order, secs)), Some(order[0])))
  {
    var n := order[0];
    assert SectionOk(n, secs[n]) && IsAlpha(n) && ItemsReadable(secs[n]) by {
      assert n in order;
    }
    assert order == [n];
    assert Filed(order, secs) == map[n := secs[n]];
    FirstSectionRead(secs[n]);
  }

  /** A section's lines read from the empty document give a document of that
      section alone. */
  lemma FirstSectionRead(s: SectionView)
    requires SectionOk(s.name, s) && IsAlpha(s.name) && ItemsReadable(s)
    ensures Run(Initial, SectionLines(s)) == Ok(ParseState(Doc([s.name], map[s.name := s]), Some(s.name)))
  {
    SectionRead(Initial, s);
    assert [] + [s.name] == [s.name];
  }

  /** One more section's lines read after those of the sections before it. */
  lemma DocReadNext(order: seq<string>, secs: map<string, SectionView>)
    requires |order| > 1 && Listed(order, secs) && Sound(order, secs)
    requires order[|order| - 1] !in order[..|order| - 1]
    requires var init := order[..|order| - 1];
      Listed(init, secs) &&
      Run(Initial, DocLines(init, secs)) == Ok(ParseState(Doc(init, Filed(init, secs)), Some(init[|init| - 1])))
    ensures Run(Initial, DocLines(order, secs)) == Ok(ParseState(Doc(order, Filed(order, secs)), Some(order[|order| - 1])))
  {
    var init := order[..|order| - 1];
    var last := order[|order| - 1];
    assert last in order;
    assert SectionOk(last, secs[last]) && IsAlpha(last) && ItemsReadable(secs[last]);
    var st := ParseState(Doc(init, Filed(init, secs)), Some(init[|init| - 1]));
    LastSplit(order);
    NextSectionLines(init, secs, last, st);
    SectionRead(st, secs[last]);
    FiledSnoc(init, secs, last);
  }

  /** A non-empty list is its front followed by its last element. */
  lemma LastSplit<T>(s: seq<T>)
    requires s != []
    ensures s == s[..|s| - 1] + [s[|s| - 1]]
  {
  }

  /** Past the lines of the sections before it and the blank line, a section's
      lines are read from where the earlier ones left off. */
  lemma NextSectionLines(init: seq<string>, secs: map<string, SectionView>, last: string, st: ParseState)
    requires init != [] && Listed(init + [last], secs)
    requires Run(Initial, DocLines(init, secs)) == Ok(st)
    ensures Run(Initial, DocLines(init + [last], secs)) == Run(st, SectionLines(secs[last]))
  {
    var order := init + [last];
    assert order[..|order| - 1] == init && order[|order| - 1] == last;
    var a := DocLines(init, secs);
    var sl := SectionLines(secs[last]);
    assert DocLines(order, secs) == a + [""] + sl;
    RunSkipsEmpty(Initial, a, sl);
    RunAppend(Initial, a, sl);
  }

  /** Filing one more section under its name. */
  lemma FiledSnoc(init: seq<string>, secs: map<string, SectionView>, last: string)
    requires forall n :: n in init + [last] ==> n in secs
    ensures Filed(init, secs)[last := secs[last]] == Filed(init + [last], secs)
  {
  }

  /** The document round trip: the text written for a readable document parses
      back to that document, with the last section active. */
  lemma RenderParse(d: Doc)
    requires Readable(d)
    ensures ParseLines(FileLines(RenderDoc(d)))
      == Ok(ParseState(d, if d.sectionOrder == [] then None else Some(d.sectionOrder[|d.sectionOrder| - 1])))
  {
    if d.sectionOrder == [] {
      EmptyRenderParse(d);
    } else {
      ReadableSound(d);
      RenderParseSome(d);
    }
  }

  /** The empty document is written as the empty text, which has no lines. */
  lemma EmptyRenderParse(d: Doc)
    requires Readable(d) && d.sectionOrder == []
    ensures ParseLines(FileLines(RenderDoc(d))) == Ok(ParseState(d, None))
  {
    assert FileLines(RenderDoc(d)) == [] by {
      RenderedLines(d);
    }
    assert d == Doc([], map[]);
  }

  /** What a readable document tells of its sections. */
  lemma ReadableSound(d: Doc)
    requires Readable(d)
    ensures Listed(d.sectionOrder, d.sections) && Sound(d.sectionOrder, d.sections)
    ensures Filed(d.sectionOrder, d.sections) == d.sections
  {
    assert Sound(d.sectionOrder, d.sections);
    SoundListed(d.sectionOrder, d.sections);
  }

  /** A document with at least one section reads back with its last one active. */
  lemma RenderParseSome(d: Doc)
    requires Readable(d) && d.sectionOrder != []
    requires Listed(d.sectionOrder, d.sections) && Sound(d.sectionOrder, d.sections)
    requires Filed(d.sectionOrder, d.sections) == d.sections
    ensures ParseLines(FileLines(RenderDoc(d))) == Ok(ParseState(d, Some(d.sectionOrder[|d.sectionOrder| - 1])))
  {
    RenderedPieces(d);
    ParseFileLines(RenderDoc(d));
    DocRead(d.sectionOrder, d.sections);
  }

  /** An item line read from a single line is written back as a single line. */
  lemma FiledItemOneLine(line: string)
    requires '\n' !in line && ParseItemLine(line, true).Ok?
    ensures var it := ParseItemLine(line, true).value;
      '\n' !in RenderItem(ItemOf(it.key, it.parsed))
  {
    var it := ParseItemLine(line, true).value;
    var d := IndexOf(line, '=');
    StrippedChars(line[..d]);
    StrippedChars(line[d + 1..]);
    ValueTextChars(Stripped(line[d + 1..]));
    RenderItemSplits(it.key, it.parsed);
    assert forall ch :: ch in line[..d] ==> ch in line;
    assert forall ch :: ch in line[d + 1..] ==> ch in line;
  }

  /** A new, empty section keeps the document readable. */
  lemma AddSectionReadable(d: Doc, name: string)
    requires SectionsReadable(d) && IsAlpha(name)
    ensures SectionsReadable(AddSection(d, name))
  {
    assert ItemsReadable(SectionView(name, [], map[]));
  }

  /** An item read from a single line keeps the document readable. */
  lemma FileItemReadable(st: ParseState, line: string)
    requires StateOk(st) && st.active.Some? && SectionsReadable(st.doc)
    requires '\n' !in line && ParseItemLine(line, true).Ok?
    ensures var it := ParseItemLine(line, true).value;
      SectionsReadable(FileItem(st, it.key, it.parsed).doc)
  {
    var it := ParseItemLine(line, true).value;
    var item := ItemOf(it.key, it.parsed);
    assert ItemReadable(item) by {
      ItemLineRoundTrip(line);
      FiledItemOneLine(line);
      assert ParsedValue(item.value, item.comment) == it.parsed;
    }
    var n := st.active.value;
    AddItemReadable(st.doc.sections[n], it.key, it.parsed);
    UpdateReadable(st.doc, n, AddItem(st.doc.sections[n], it.key, it.parsed));
  }

  /** Adding a readable item keeps a section's items readable. */
  lemma AddItemReadable(s: SectionView, key: string, pv: ParsedValue)
    requires ItemsReadable(s) && ItemReadable(ItemOf(key, pv))
    ensures ItemsReadable(AddItem(s, key, pv))
  {
    if key !in s.items {
      NewItemReadable(s, key, ItemOf(key, pv));
      assert AddItem(s, key, pv).items == s.(items := s.items[key := ItemOf(key, pv)]).items;
    }
  }

  /** A new readable entry keeps every entry of an item map readable. */
  lemma NewItemReadable(s: SectionView, key: string, it: ItemView)
    requires ItemsReadable(s) && ItemReadable(it)
    ensures ItemsReadable(s.(items := s.items[key := it]))
  {
    var m := s.items[key := it];
    forall k | k in m ensures ItemReadable(m[k]) {
      if k != key {
        assert ItemReadable(s.items[k]);
      }
    }
  }

  /** Replacing a section by a readable one keeps the document readable. */
  lemma UpdateReadable(d: Doc, n: string, s: SectionView)
    requires SectionsReadable(d) && n in d.sections && ItemsReadable(s)
    ensures SectionsReadable(Doc(d.sectionOrder, d.sections[n := s]))
  {
  }

  /** One step over a single line keeps every section and item readable. */
  lemma StepReadable(st: ParseState, line: string)
    requires StateOk(st) && SectionsReadable(st.doc) && '\n' !in line
    ensures Step(st, line).Ok? ==> SectionsReadable(Step(st, line).value.doc)
  {
    if line == "" || line[0] in CommentMarkers {
    } else if line[0] == '[' {
      assert Step(st, line) == HeaderStep(st, line);
      if SectionHeader(line).Ok? {
        AddSectionReadable(st.doc, SectionHeader(line).value);
      }
    } else {
      assert Step(st, line) == ItemStep(st, line);
      if st.active.Some? && ParseItemLine(line, true).Ok? {
        FileItemReadable(st, line);
      }
    }
  }

  /** Every section and item a parse of single lines files is readable. */
  lemma {:induction false} RunReadable(st: ParseState, lines: seq<string>)
    requires StateOk(st) && SectionsReadable(st.doc)
    requires forall i :: 0 <= i < |lines| ==> '\n' !in lines[i]
    decreases |lines|
    ensures Run(st, lines).Ok? ==> SectionsReadable(Run(st, lines).value.doc)
  {
    if lines != [] {
      RunReadable(st, lines[..|lines| - 1]);
      match Run(st, lines[..|lines| - 1])
      case Err(_) =>
      case Ok(s) => StepReadable(s, lines[|lines| - 1]);
    }
  }

  /** Load, save and load again: a document parsed from lines without line feeds
      and without a repeated header is written as text that parses to the same
      document and the same active section. */
  lemma ParseRenderParse(lines: seq<string>)
    requires forall i :: 0 <= i < |lines| ==> '\n' !in lines[i]
    requires ParseLines(lines).Ok?
    requires forall i, j :: 0 <= i < j < |Headers(lines)| ==> Headers(lines)[i] != Headers(lines)[j]
    ensures DocOk(ParseLines(lines).value.doc)
    ensures ParseLines(FileLines(RenderDoc(ParseLines(lines).value.doc))) == ParseLines(lines)
  {
    var st := ParseLines(lines).value;
    ParsedReadable(lines);
    RenderParse(st.doc);
  }

  /** A document parsed from lines without line feeds and without a repeated header
      is readable, and the last of its sections is the active one. */
  lemma ParsedReadable(lines: seq<string>)
    requires forall i :: 0 <= i < |lines| ==> '\n' !in lines[i]
    requires ParseLines(lines).Ok?
    requires forall i, j :: 0 <= i < j < |Headers(lines)| ==> Headers(lines)[i] != Headers(lines)[j]
    ensures var st := ParseLines(lines).value;
      && Readable(st.doc)
      && st.active == if st.doc.sectionOrder == [] then None else Some(st.doc.sectionOrder[|st.doc.sectionOrder| - 1])
  {
    var st := ParseLines(lines).value;
    assert DocOk(st.doc) by {
      RunKeepsDocOk(Initial, lines);
    }
    assert SectionsReadable(st.doc) by {
      RunReadable(Initial, lines);
    }
    assert st.doc.sectionOrder == Headers(lines)
      && st.active == if Headers(lines) == [] then None else Some(Headers(lines)[|Headers(lines)| - 1]) by {
      RunSectionOrder(Initial, lines);
    }
  }
}
