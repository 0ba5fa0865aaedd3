/** Magic_Config: the sections of an INI file in memory, loaded from and written to the file. */
module Config {
  import opened Wrappers
  import opened Strings
  import opened Ini

  class File {
    var text: string

    constructor (text: string)
      ensures this.text == text
    {
      this.text := text;
    }
  }

  lemma {:induction false} AddItemsAppend(m: Items, items: seq<Item>, item: Item)
    ensures AddItems(m, items + [item]) == AddItems(m, items)[item.key := item.value]
    decreases items
  {
    if items == [] {
      assert items + [item] == [item];
    } else {
      assert (items + [item])[1..] == items[1..] + [item];
      AddItemsAppend(m[items[0].key := items[0].value], items[1..], item);
    }
  }

  lemma {:induction false} PrintItemsAppend(items: seq<Item>, item: Item)
    ensures PrintItems(items + [item]) == PrintItems(items) + (ItemLine(item) + "\n")
    decreases items
  {
    hide ItemLine;
    if items == [] {
      assert items + [item] == [item];
    } else {
      assert (items + [item])[1..] == items[1..] + [item];
      PrintItemsAppend(items[1..], item);
      assert (ItemLine(items[0]) + "\n") + (PrintItems(items[1..]) + (ItemLine(item) + "\n"))
          == ((ItemLine(items[0]) + "\n") + PrintItems(items[1..])) + (ItemLine(item) + "\n");
    }
  }

  function PrintSection(s: Section): string {
    NameLine(s.name) + "\n" + PrintItems(s.items)
  }

  lemma {:induction false} PrintAppend(sections: seq<Section>, s: Section)
    ensures Print(sections + [s]) == Print(sections) + PrintSection(s)
    decreases sections
  {
    hide NameLine, PrintItems;
    if sections == [] {
      assert sections + [s] == [s];
      assert Print([s]) == PrintSection(s) + "";
    } else {
      assert (sections + [s])[1..] == sections[1..] + [s];
      PrintAppend(sections[1..], s);
      assert PrintSection(sections[0]) + (Print(sections[1..]) + PrintSection(s))
          == (PrintSection(sections[0]) + Print(sections[1..])) + PrintSection(s);
    }
  }

  /** `items` are those of `m` whose keys are not in `todo`. */
  ghost predicate Printed(items: seq<Item>, m: Items, todo: set<string>) {
    && AddItems(map[], items) == m - todo
    && forall item <- items :: item.key in m && m[item.key] == item.value
  }

  /** `sections` are those of `m` whose names are not in `todo`; the empty name came first. */
  ghost predicate ArrangesBut(sections: seq<Section>, m: Sections, todo: set<string>) {
    && todo <= m.Keys && Arranges(sections, m - todo)
    && ("" in todo ==> sections == [])
  }

  class Config {
    const file: File
    var sections: Sections

    constructor (file: File)
      ensures this.file == file && sections == map[]
    {
      this.file := file;
      sections := map[];
    }

    ghost function State(section: string, begun: bool, keyvalue: Items): Loading
      reads this
    {
      Loading(sections, section, begun, keyvalue)
    }

    /** The body of the loop of LoadFile: `goesOn` unless it returns, or a TrimString throws. */
    method TakeLine(line: string, section: string, begun: bool, keyvalue: Items)
        returns (goesOn: bool, threw: bool, section': string, begun': bool, keyvalue': Items)
      modifies this
      ensures goesOn <==> !MeaningOf(line).Unclosed? && !MeaningOf(line).Throws?
      ensures threw <==> MeaningOf(line).Throws?
      ensures goesOn ==>
                State(section', begun', keyvalue') == Take(old(State(section, begun, keyvalue)), MeaningOf(line))
      ensures !goesOn ==> sections == old(sections)
    {
      hide Trim, Find, UntilNul, EntryLine, BracketLine;
      goesOn, threw, section', begun', keyvalue' := true, false, section, begun, keyvalue;
      var buf := UntilNul(line);
      if buf == "" {
        return;
      }
      if buf[|buf| - 1] == '\r' {
        buf := buf[..|buf| - 1];
      }
      if buf == "" {
        return;
      }
      var trimmed := Trim(buf);
      if trimmed.None? {
        goesOn, threw := false, true;
        return;
      }
      var tmp := trimmed.value;
      var pos := Find(tmp, '[');
      if pos < |tmp| {
        goesOn, section', begun', keyvalue' := TakeBracket(tmp, pos, section, begun, keyvalue);
        return;
      }
      threw, keyvalue' := TakeEntry(tmp, keyvalue);
      goesOn := !threw;
    }

    /** A line with an opening bracket at `pos`: the section before it is complete. */
    method TakeBracket(tmp: string, pos: nat, section: string, begun: bool, keyvalue: Items)
        returns (goesOn: bool, section': string, begun': bool, keyvalue': Items)
      requires pos < |tmp|
      modifies this
      ensures goesOn <==> !BracketLine(tmp, pos).Unclosed?
      ensures goesOn ==>
                State(section', begun', keyvalue') == Take(old(State(section, begun, keyvalue)), BracketLine(tmp, pos))
      ensures !goesOn ==> sections == old(sections)
    {
      goesOn, section', begun', keyvalue' := true, section, begun, keyvalue;
      var endpos := FindLast(tmp, ']');
      if endpos.None? {
        goesOn := false;
        return;
      }
      if begun {
        sections := sections[section := keyvalue];
      }
      section' := if endpos.value > pos then tmp[pos + 1..endpos.value] else tmp[pos + 1..];
      begun', keyvalue' := true, map[];
    }

    /** A line without brackets: a comment, or a key and a value. */
    method TakeEntry(tmp: string, keyvalue: Items) returns (threw: bool, keyvalue': Items)
      requires tmp != ""
      ensures threw <==> EntryLine(tmp).Throws?
      ensures keyvalue' == if EntryLine(tmp).Entry? then keyvalue[EntryLine(tmp).key := EntryLine(tmp).value]
                else keyvalue
    {
      hide Trim, Find;
      threw, keyvalue' := false, keyvalue;
      var keypos := Find(tmp, '=');
      if tmp[0] != ';' && tmp[0] != '#' && keypos < |tmp| {
        var key, value := Trim(tmp[..keypos]), Trim(tmp[keypos + 1..]);
        if key.None? || value.None? {
          return true, keyvalue;
        }
        keyvalue' := keyvalue[key.value := value.value];
      }
    }

    /** `opens` tells whether the file can be opened; `threw` whether TrimString threw. */
    method LoadFile(opens: bool) returns (status: int, threw: bool)
      modifies this
      ensures !opens ==> status == -1 && !threw && sections == old(sections)
      ensures opens ==>
                match LoadFrom(Loading(old(sections), "", false, map[]), file.text)
                case Loaded(s) => status == 0 && !threw && sections == s
                case Rejected(s) => status == -1 && !threw && sections == s
                case Threw(s) => threw && sections == s
    {
      hide NextLine, MeaningOf;
      status, threw := -1, false;
      if !opens {
        return;
      }
      var section, begun, keyvalue: Items := "", false, map[];
      var text := file.text;
      var line := NextLine(text);
      while line.GotLine?
        invariant line == NextLine(text) && status == -1 && !threw
        invariant LoadFrom(Loading(old(sections), "", false, map[]), file.text)
                    == LoadFrom(State(section, begun, keyvalue), text)
        decreases |text|
      {
        var goesOn;
        goesOn, threw, section, begun, keyvalue := TakeLine(line.text, section, begun, keyvalue);
        if !goesOn {
          return;
        }
        text := line.rest;
        line := NextLine(text);
      }
      if section != "" {
        sections := sections[section := keyvalue];
      }
      status := 0;
    }

    /** The lines of one section, in any order. */
    method SectionText(name: string) returns (text: string, ghost printed: Section)
      requires name in sections
      ensures text == PrintSection(printed) && printed.name == name && Printed(printed.items, sections[name], {})
    {
      hide ItemLine, NameLine, PrintItems, AddItems;
      var config := sections[name];
      ghost var items: seq<Item> := [];
      text := NameLine(name) + "\n";
      NothingPrinted(config, text);
      var todo := config.Keys;
      while todo != {}
        invariant todo <= config.Keys && Printed(items, config, todo)
        invariant text == NameLine(name) + "\n" + PrintItems(items)
        decreases |todo|
      {
        var key :| key in todo;
        var item := Item(key, config[key]);
        PrintItemsAppend(items, item);
        AddItemsAppend(map[], items, item);
        assert (config - todo)[key := config[key]] == config - (todo - {key});
        Joined(NameLine(name) + "\n", PrintItems(items), ItemLine(item) + "\n");
        text := text + (ItemLine(item) + "\n");
        items, todo := items + [item], todo - {key};
      }
      printed := Section(name, items);
      assert config - {} == config;
    }

    /** The sections in the order of their names, which puts the empty name first. */
    method WriteFile(opens: bool) returns (status: int, ghost arranged: seq<Section>)
      modifies file
      ensures !opens ==> status == -1 && file.text == old(file.text)
      ensures opens ==> status == 0 && Arranges(arranged, sections) && file.text == Print(arranged)
    {
      hide Arranges, PrintSection, Print;
      arranged := [];
      if !opens {
        return -1, arranged;
      }
      var text := "";
      var todo := sections.Keys;
      NothingArranged(sections);
      while todo != {}
        invariant ArrangesBut(arranged, sections, todo) && text == Print(arranged)
        decreases |todo|
      {
        var name :| name in todo && ("" in todo ==> name == "");
        var more, printed := SectionText(name);
        PrintAppend(arranged, printed);
        ArrangesMore(arranged, sections, todo, printed);
        text, arranged, todo := text + more, arranged + [printed], todo - {name};
      }
      assert sections - {} == sections;
      file.text := text;
      status := 0;
    }

    method WriteItem(section: string, key: string, value: string, opens: bool)
        returns (status: int, ghost arranged: seq<Section>)
      modifies this, file
      ensures var items := if section in old(sections) then old(sections)[section] else map[];
              sections == old(sections)[section := items[key := value]]
      ensures !opens ==> status == -1 && file.text == old(file.text)
      ensures opens ==> status == 0 && Arranges(arranged, sections) && file.text == Print(arranged)
    {
      if section !in sections {
        sections := sections[section := map[key := value]];
        status, arranged := WriteFile(opens);
        return;
      }
      var config := sections[section];
      ghost var before := config;
      var todo := config.Keys;
      while todo != {}
        invariant todo <= config.Keys == before.Keys
        invariant forall k <- config :: config[k] == if k == key && k !in todo then value else before[k]
        decreases |todo|
      {
        var k :| k in todo;
        if k == key {
          config := config[k := value];
        }
        todo := todo - {k};
      }
      config := config[key := value];
      assert config == before[key := value];
      sections := sections[section := config];
      status, arranged := WriteFile(opens);
    }

    method ReadItem(section: string, key: string, defaultValue: string, itemValue: string)
        returns (status: int, value: string)
      ensures status == -1 <==> section !in sections
      ensures status != -1 ==> status == 0
      ensures value == if section !in sections then itemValue
                else if key in sections[section] then sections[section][key] else defaultValue
    {
      if section !in sections {
        return -1, itemValue;
      }
      status := 0;
      value := if key in sections[section] then sections[section][key] else defaultValue;
    }

    /** An item is written, and a second object loads the file: it holds what this one
        holds exactly when that is well formed. */
    method WriteThenLoad(section: string, key: string, value: string) returns (status: int, reader: Config)
      modifies this, file
      ensures var items := if section in old(sections) then old(sections)[section] else map[];
              sections == old(sections)[section := items[key := value]]
      ensures status == 0 && reader.sections == sections <==> WellFormed(sections)
    {
      hide LoadFrom, Print, Arranges, WellFormed;
      var written, arranged := WriteItem(section, key, value, true);
      RoundTripExactly(arranged, sections);
      reader := new Config(file);
      var threw;
      status, threw := reader.LoadFile(true);
      if threw {
        status := -1;
      }
    }
  }

  lemma Joined(a: string, b: string, c: string)
    ensures a + b + c == a + (b + c)
  {
  }

  lemma NothingPrinted(m: Items, head: string)
    ensures Printed([], m, m.Keys) && head + PrintItems([]) == head
  {
    assert m - m.Keys == map[];
  }

  lemma NothingArranged(m: Sections)
    ensures ArrangesBut([], m, m.Keys) && Print([]) == ""
  {
    assert m - m.Keys == map[];
  }

  lemma ArrangesMore(arranged: seq<Section>, m: Sections, todo: set<string>, s: Section)
    requires ArrangesBut(arranged, m, todo) && s.name in todo && ("" in todo ==> s.name == "")
    requires Printed(s.items, m[s.name], {})
    ensures ArrangesBut(arranged + [s], m, todo - {s.name})
  {
    hide Shows, Printed, Arranges;
    ArrangesBefore(arranged, m, todo);
    var before, after := m - todo, m - (todo - {s.name});
    assert after.Keys == before.Keys + {s.name};
    ShowsNew(m, todo, s);
    var all := arranged + [s];
    forall x <- all
      ensures Shows(x, after)
    {
      if x in arranged {
        ShowsStill(before, after, x);
      }
    }
    CoversMore(arranged, before, after, s);
  }

  lemma ArrangesBefore(arranged: seq<Section>, m: Sections, todo: set<string>)
    requires ArrangesBut(arranged, m, todo)
    ensures forall x <- arranged :: Shows(x, m - todo)
  {
  }

  lemma ShowsNew(m: Sections, todo: set<string>, s: Section)
    requires s.name in todo && todo <= m.Keys && Printed(s.items, m[s.name], {})
    ensures Shows(s, m - (todo - {s.name}))
  {
    hide AddItems;
    assert m[s.name] - {} == m[s.name];
  }

  lemma ShowsStill(before: Sections, after: Sections, s: Section)
    requires Shows(s, before) && forall name <- before :: name in after && after[name] == before[name]
    ensures Shows(s, after)
  {
  }

  /** One more section, of a new name. */
  lemma CoversMore(arranged: seq<Section>, before: Sections, after: Sections, s: Section)
    requires Arranges(arranged, before) && after.Keys == before.Keys + {s.name} && s.name !in before
    requires (arranged == [] || s.name != "") && forall x <- arranged + [s] :: Shows(x, after)
    ensures Arranges(arranged + [s], after)
  {
    hide Ordered, Covers, Shows;
    NamesMore(arranged, before, after, s);
    NamesApart(arranged, before, s);
  }

  lemma NamesApart(arranged: seq<Section>, before: Sections, s: Section)
    requires Ordered(arranged) && Covers(arranged, before) && s.name !in before && (arranged == [] || s.name != "")
    ensures Ordered(arranged + [s])
  {
  }

  lemma NamesMore(arranged: seq<Section>, before: Sections, after: Sections, s: Section)
    requires Covers(arranged, before) && after.Keys == before.Keys + {s.name}
    requires forall x <- arranged + [s] :: Shows(x, after)
    ensures Covers(arranged + [s], after)
  {
  }
}
