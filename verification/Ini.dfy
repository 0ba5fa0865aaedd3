/** The text of an INI file: how it is printed, and what a load makes of any text. */
module Ini {
  import opened Wrappers
  import opened Strings

  type Items = map<string, string>
  type Sections = map<string, Items>

  /** The longest line that fits the buffer. */
  const MAX_LINE: nat := 10239

  // ---------------------------------------------------------------- lines

  datatype LineRead = GotLine(text: string, rest: string) | NoMore

  /** A line that does not fit the buffer reads like the end of the file. */
  function NextLine(s: string): (r: LineRead)
    ensures r.GotLine? ==> |r.rest| < |s|
  {
    var k := Find(s, '\n');
    if s == "" || k > MAX_LINE then NoMore
    else GotLine(s[..k], if k < |s| then s[k + 1..] else "")
  }

  function TrimLeft(s: string): (t: string)
    ensures |t| <= |s| && (t != "" ==> t[0] != ' ' && t[|t| - 1] == s[|s| - 1])
    ensures (forall c <- t :: c in s) && (s != "" && s[0] != ' ' ==> t == s)
    ensures t == "" <==> forall k :: 0 <= k < |s| ==> s[k] == ' '
  {
    if s == "" || s[0] != ' ' then s else TrimLeft(s[1..])
  }

  function TrimRight(s: string): (t: string)
    ensures t <= s && (t != "" ==> t[|t| - 1] != ' ')
    ensures (s != "" && s[|s| - 1] != ' ' ==> t == s) && (s != "" && s[0] != ' ' ==> t != "")
  {
    if s == "" || s[|s| - 1] != ' ' then s else TrimRight(s[..|s| - 1])
  }

  /** No space at either end. */
  predicate Trimmed(s: string) {
    s != "" ==> s[0] != ' ' && s[|s| - 1] != ' '
  }

  /** TrimString; None stands for the exception that a string of spaces only causes. */
  function Trim(s: string): (r: Option<string>)
    ensures r.Some? ==> Trimmed(r.value) && |r.value| <= |s| && (r.value == "" <==> s == "")
    ensures r.Some? ==> forall c <- r.value :: c in s
    ensures Trimmed(s) ==> r == Some(s)
    ensures r.None? <==> s != "" && forall k :: 0 <= k < |s| ==> s[k] == ' '
  {
    if s == "" then Some("")
    else if TrimLeft(s) == "" then None
    else Some(TrimRight(TrimLeft(s)))
  }

  function FindLast(s: string, c: char): (r: Option<nat>)
    ensures r.Some? ==> r.value < |s| && s[r.value] == c
    ensures r.None? ==> c !in s
  {
    if s == "" then None
    else if s[|s| - 1] == c then Some(|s| - 1)
    else FindLast(s[..|s| - 1], c)
  }

  /** What a line stands for. */
  datatype Meaning =
    | Nothing
    | SectionLine(name: string)
    | Entry(key: string, value: string)
    | Unclosed      // an opening bracket without a closing one
    | Throws

  /** Without a carriage return at the end. */
  function Uncarried(s: string): (t: string)
    ensures |t| <= |s| && forall c <- t :: c in s
  {
    if s != "" && s[|s| - 1] == '\r' then s[..|s| - 1] else s
  }

  /** A trimmed line with a bracket anywhere is a section line. */
  function BracketLine(t: string, open: nat): (m: Meaning)
    requires open < |t|
    ensures m.SectionLine? || m.Unclosed?
  {
    match FindLast(t, ']')
    case None => Unclosed
    case Some(close) => SectionLine(if close > open then t[open + 1..close] else t[open + 1..])
  }

  /** Comments start in the first column; other lines without `=` mean nothing. */
  function EntryLine(t: string): (m: Meaning)
    requires t != ""
    ensures !m.SectionLine? && !m.Unclosed?
  {
    var k := Find(t, '=');
    if t[0] == ';' || t[0] == '#' || k == |t| then Nothing
    else if Trim(t[..k]).Some? && Trim(t[k + 1..]).Some? then Entry(Trim(t[..k]).value, Trim(t[k + 1..]).value)
    else Throws
  }

  function TrimmedLine(t: string): Meaning
    requires t != ""
  {
    if Find(t, '[') < |t| then BracketLine(t, Find(t, '[')) else EntryLine(t)
  }

  function MeaningOf(line: string): Meaning {
    var s := Uncarried(UntilNul(line));
    if s == "" then Nothing
    else
      match Trim(s)
      case None => Throws
      case Some(t) => TrimmedLine(t)
  }

  // ---------------------------------------------------------------- loading

  /** The sections that are complete, and the one being read, if any. */
  datatype Loading = Loading(sections: Sections, name: string, begun: bool, items: Items)

  function Take(l: Loading, m: Meaning): Loading {
    match m
    case SectionLine(name) => Loading(if l.begun then l.sections[l.name := l.items] else l.sections, name, true, map[])
    case Entry(key, value) => l.(items := l.items[key := value])
    case _ => l
  }

  /** At the end the section being read is complete, unless its name is empty. */
  function Finished(l: Loading): Sections {
    if l.name != "" then l.sections[l.name := l.items] else l.sections
  }

  datatype Outcome = Loaded(sections: Sections) | Rejected(sections: Sections) | Threw(sections: Sections)

  function LoadFrom(l: Loading, text: string): Outcome
    decreases |text|
  {
    match NextLine(text)
    case NoMore => Loaded(Finished(l))
    case GotLine(line, rest) =>
      match MeaningOf(line)
      case Unclosed => Rejected(l.sections)
      case Throws => Threw(l.sections)
      case m => LoadFrom(Take(l, m), rest)
  }

  const START: Loading := Loading(map[], "", false, map[])

  // ---------------------------------------------------------------- printing

  datatype Item = Item(key: string, value: string)

  datatype Section = Section(name: string, items: seq<Item>)

  function ItemLine(item: Item): string {
    item.key + "=" + item.value
  }

  function PrintItems(items: seq<Item>): string {
    if items == [] then "" else ItemLine(items[0]) + "\n" + PrintItems(items[1..])
  }

  function NameLine(name: string): string {
    "[" + name + "]"
  }

  function Print(sections: seq<Section>): string {
    if sections == [] then ""
    else NameLine(sections[0].name) + "\n" + PrintItems(sections[0].items) + Print(sections[1..])
  }

  /** Later items win. */
  function AddItems(m: Items, items: seq<Item>): Items
    decreases items
  {
    if items == [] then m else AddItems(m[items[0].key := items[0].value], items[1..])
  }

  /** The section prints one of the sections of `m`. */
  ghost predicate Shows(s: Section, m: Sections) {
    && s.name in m && m[s.name] == AddItems(map[], s.items)
    && forall item <- s.items :: item.key in m[s.name] && m[s.name][item.key] == item.value
  }

  /** No name twice, and the empty name first. */
  ghost predicate Ordered(sections: seq<Section>) {
    && (forall i, j :: 0 <= i < j < |sections| ==> sections[i].name != sections[j].name)
    && (forall i :: 0 < i < |sections| ==> sections[i].name != "")
  }

  ghost predicate Covers(sections: seq<Section>, m: Sections) {
    && (forall name :: name in m <==> exists s <- sections :: s.name == name)
    && (forall s <- sections :: Shows(s, m))
  }

  /** `m` in the order of its names: the empty name comes first. */
  ghost predicate Arranges(sections: seq<Section>, m: Sections) {
    |sections| == |m.Keys| && Ordered(sections) && Covers(sections, m)
  }

  // ---------------------------------------------------------------- well-formed maps

  predicate OnOneLine(s: string) {
    '\n' !in s && '\0' !in s
  }

  predicate NameOk(name: string) {
    OnOneLine(name) && |name| + 2 <= MAX_LINE
  }

  predicate KeyOk(key: string) {
    OnOneLine(key) && '[' !in key && '=' !in key && Trimmed(key) && (key != "" ==> key[0] != ';' && key[0] != '#')
  }

  predicate EntryOk(key: string, value: string) {
    KeyOk(key) && OnOneLine(value) && '[' !in value && Trimmed(value) && |key| + 1 + |value| <= MAX_LINE
  }

  ghost predicate ItemsOk(m: Items) {
    forall key <- m :: EntryOk(key, m[key])
  }

  /** What a load can produce. */
  ghost predicate Loadable(m: Sections) {
    forall name <- m :: NameOk(name) && ItemsOk(m[name])
  }

  /** What a load gives back: no value ends in a carriage return, and the empty name is
      not the only one. */
  ghost predicate WellFormed(m: Sections) {
    && Loadable(m) && m.Keys != {""}
    && forall name <- m, key <- m[name] :: Uncarried(m[name][key]) == m[name][key]
  }

  // ---------------------------------------------------------------- single lines

  lemma NextLinePrinted(line: string, rest: string)
    requires OnOneLine(line) && |line| <= MAX_LINE
    ensures NextLine(line + "\n" + rest) == GotLine(line, rest)
  {
    var s := line + "\n" + rest;
    forall i | 0 <= i < |line|
      ensures s[i] != '\n'
    {
      assert line[i] in line;
    }
    FindIsFirst(s, '\n', |line|);
    assert s[..|line|] == line && s[|line| + 1..] == rest;
  }

  lemma {:induction false} FindsNone(s: string, c: char)
    requires c !in s
    ensures Find(s, c) == |s|
  {
    forall i | 0 <= i < |s|
      ensures s[i] != c
    {
      assert s[i] in s;
    }
    FindIsFirst(s, c, |s|);
  }

  lemma NameMeaning(name: string)
    requires NameOk(name)
    ensures MeaningOf(NameLine(name)) == SectionLine(name)
  {
  }

  /** What a printed value is read back as. */
  function Reload(value: string): string {
    TrimRight(Uncarried(value))
  }

  lemma {:induction false} TrimRightAfter(head: string, tail: string)
    requires head != "" && head[|head| - 1] != ' '
    ensures TrimRight(head + tail) == head + TrimRight(tail)
  {
    if tail == "" {
      assert head + tail == head;
    } else if tail[|tail| - 1] == ' ' {
      assert (head + tail)[..|head + tail| - 1] == head + tail[..|tail| - 1];
      TrimRightAfter(head, tail[..|tail| - 1]);
    }
  }

  lemma EntrySplits(key: string, value: string)
    requires KeyOk(key) && '[' !in value && Trimmed(value)
    ensures TrimmedLine(key + "=" + value) == Entry(key, value)
  {
    var t := key + "=" + value;
    FindsNone(t, '[');
    forall i | 0 <= i < |key|
      ensures t[i] != '='
    {
      assert key[i] in key;
    }
    FindIsFirst(t, '=', |key|);
    assert t[..|key|] == key && t[|key| + 1..] == value;
  }

  lemma EntryMeaning(key: string, value: string)
    requires EntryOk(key, value)
    ensures MeaningOf(ItemLine(Item(key, value))) == Entry(key, Reload(value))
  {
    hide TrimmedLine, Find, TrimRight, TrimLeft;
    var line, cut := ItemLine(Item(key, value)), Uncarried(value);
    assert '\0' !in line;
    assert Uncarried(line) == key + "=" + cut;
    TrimRightAfter(key + "=", cut);
    assert (key + "=") + TrimRight(cut) == key + "=" + TrimRight(cut);
    UncarriedTrims(value);
    EntrySplits(key, TrimRight(cut));
    TrimAt(key + "=" + cut);
  }

  lemma TrimAt(s: string)
    requires s != "" && s[0] != ' '
    ensures Trim(s) == Some(TrimRight(s))
  {
  }

  lemma UncarriedTrims(value: string)
    requires Trimmed(value) && '[' !in value
    ensures Trimmed(Reload(value)) && '[' !in Reload(value)
  {
    assert Reload(value) <= Uncarried(value);
  }

  // ---------------------------------------------------------------- loading what was printed

  ghost predicate AllOk(items: seq<Item>) {
    forall item <- items :: EntryOk(item.key, item.value)
  }

  /** Later items win, with their values as they are read back. */
  function AddReloaded(m: Items, items: seq<Item>): Items
    decreases items
  {
    if items == [] then m else AddReloaded(m[items[0].key := Reload(items[0].value)], items[1..])
  }

  lemma LoadLine(l: Loading, line: string, rest: string)
    requires OnOneLine(line) && |line| <= MAX_LINE && !MeaningOf(line).Unclosed? && !MeaningOf(line).Throws?
    ensures LoadFrom(l, line + "\n" + rest) == LoadFrom(Take(l, MeaningOf(line)), rest)
  {
    hide NextLine, MeaningOf;
    NextLinePrinted(line, rest);
  }

  lemma LoadItem(l: Loading, item: Item, rest: string)
    requires EntryOk(item.key, item.value)
    ensures LoadFrom(l, ItemLine(item) + "\n" + rest)
              == LoadFrom(l.(items := l.items[item.key := Reload(item.value)]), rest)
  {
    hide MeaningOf, LoadFrom, Reload;
    EntryMeaning(item.key, item.value);
    assert OnOneLine(ItemLine(item));
    LoadLine(l, ItemLine(item), rest);
  }

  lemma {:induction false} LoadItems(l: Loading, items: seq<Item>, rest: string)
    requires AllOk(items)
    ensures LoadFrom(l, PrintItems(items) + rest) == LoadFrom(l.(items := AddReloaded(l.items, items)), rest)
    decreases items
  {
    hide LoadFrom, EntryOk, Reload, ItemLine;
    if items == [] {
      assert PrintItems(items) + rest == rest;
    } else {
      var tail := PrintItems(items[1..]) + rest;
      assert PrintItems(items) + rest == ItemLine(items[0]) + "\n" + tail;
      LoadItem(l, items[0], tail);
      LoadItems(l.(items := l.items[items[0].key := Reload(items[0].value)]), items[1..], rest);
    }
  }

  /** A section line: the section before it is complete. */
  function Begin(l: Loading, s: Section): Loading {
    Loading(if l.begun then l.sections[l.name := l.items] else l.sections, s.name, true, AddReloaded(map[], s.items))
  }

  function BeginAll(l: Loading, sections: seq<Section>): Loading
    decreases sections
  {
    if sections == [] then l else BeginAll(Begin(l, sections[0]), sections[1..])
  }

  ghost predicate Printable(sections: seq<Section>) {
    forall s <- sections :: NameOk(s.name) && AllOk(s.items)
  }

  lemma LoadSection(l: Loading, s: Section, rest: string)
    requires NameOk(s.name) && AllOk(s.items)
    ensures LoadFrom(l, NameLine(s.name) + "\n" + PrintItems(s.items) + rest) == LoadFrom(Begin(l, s), rest)
  {
    hide MeaningOf, LoadFrom, AllOk, PrintItems;
    NameMeaning(s.name);
    assert OnOneLine(NameLine(s.name));
    LoadLine(l, NameLine(s.name), PrintItems(s.items) + rest);
    assert NameLine(s.name) + "\n" + PrintItems(s.items) + rest
        == NameLine(s.name) + "\n" + (PrintItems(s.items) + rest);
    LoadItems(Take(l, SectionLine(s.name)), s.items, rest);
  }

  lemma {:induction false} LoadPrinted(l: Loading, sections: seq<Section>)
    requires Printable(sections)
    ensures LoadFrom(l, Print(sections)) == Loaded(Finished(BeginAll(l, sections)))
    decreases sections
  {
    hide NameOk, AllOk, PrintItems, NameLine, Finished;
    if sections != [] {
      LoadSection(l, sections[0], Print(sections[1..]));
      LoadPrinted(Begin(l, sections[0]), sections[1..]);
    }
  }

  /** Sections stored one after the other. */
  function StoreAll(m: Sections, sections: seq<Section>): Sections
    decreases sections
  {
    if sections == [] then m else StoreAll(m[sections[0].name := AddReloaded(map[], sections[0].items)], sections[1..])
  }

  lemma {:induction false} BeginsAreStored(l: Loading, sections: seq<Section>)
    requires l.begun && (l.name != "" || sections != []) && forall s <- sections :: s.name != ""
    ensures Finished(BeginAll(l, sections)) == StoreAll(l.sections[l.name := l.items], sections)
    decreases sections
  {
    hide AddReloaded;
    if sections != [] {
      BeginsAreStored(Begin(l, sections[0]), sections[1..]);
    }
  }

  /** The whole list, unless it is a single section without a name. */
  lemma FinishedAll(sections: seq<Section>)
    requires forall i :: 0 < i < |sections| ==> sections[i].name != ""
    ensures Finished(BeginAll(START, sections)) == if |sections| == 1 && sections[0].name == "" then map[]
              else StoreAll(map[], sections)
  {
    hide AddReloaded;
    if sections != [] && !(|sections| == 1 && sections[0].name == "") {
      BeginsAreStored(Begin(START, sections[0]), sections[1..]);
    }
  }

  function ReloadItems(m: Items): Items {
    map key | key in m :: Reload(m[key])
  }

  lemma {:induction false} ReloadAdds(m: Items, items: seq<Item>)
    ensures AddReloaded(ReloadItems(m), items) == ReloadItems(AddItems(m, items))
    decreases items
  {
    hide Reload;
    if items != [] {
      var next := m[items[0].key := items[0].value];
      assert ReloadItems(m)[items[0].key := Reload(items[0].value)] == ReloadItems(next);
      ReloadAdds(next, items[1..]);
    }
  }

  lemma ReloadAddsNone(items: seq<Item>)
    ensures AddReloaded(map[], items) == ReloadItems(AddItems(map[], items))
  {
    hide Reload;
    assert ReloadItems(map[]) == map[];
    ReloadAdds(map[], items);
  }

  /** Storing sections of different names stores each. */
  lemma {:induction false} StoresEach(m: Sections, sections: seq<Section>, name: string)
    requires forall i, j :: 0 <= i < j < |sections| ==> sections[i].name != sections[j].name
    ensures name in StoreAll(m, sections) <==> name in m || exists s <- sections :: s.name == name
    ensures (forall s <- sections :: s.name != name) && name in m ==> StoreAll(m, sections)[name] == m[name]
    ensures forall s <- sections :: s.name == name ==>
              name in StoreAll(m, sections) && StoreAll(m, sections)[name] == AddReloaded(map[], s.items)
    decreases sections
  {
    hide AddReloaded;
    if sections != [] {
      StoresEach(m[sections[0].name := AddReloaded(map[], sections[0].items)], sections[1..], name);
      assert forall s :: s in sections <==> s == sections[0] || s in sections[1..];
    }
  }

  /** What a load makes of the printed form of a map. */
  function Reloaded(m: Sections): Sections {
    if m.Keys == {""} then map[] else map name | name in m :: ReloadItems(m[name])
  }

  lemma StoresReloaded(sections: seq<Section>, m: Sections)
    requires Arranges(sections, m)
    ensures StoreAll(map[], sections) == map name | name in m :: ReloadItems(m[name])
  {
    hide AddReloaded, ReloadItems, AddItems, StoreAll;
    var stored := StoreAll(map[], sections);
    forall name: string
      ensures name in stored <==> name in m
      ensures name in m ==> stored[name] == ReloadItems(m[name])
    {
      StoresEach(map[], sections, name);
      if name in m {
        var s :| s in sections && s.name == name;
        ReloadAddsNone(s.items);
      }
    }
  }

  lemma SingleNameless(sections: seq<Section>, m: Sections)
    requires Arranges(sections, m)
    ensures (|sections| == 1 && sections[0].name == "") <==> m.Keys == {""}
  {
  }

  /** A printed map is read back with its values reloaded. */
  lemma LoadReloads(sections: seq<Section>, m: Sections)
    requires Arranges(sections, m) && Loadable(m)
    ensures LoadFrom(START, Print(sections)) == Loaded(Reloaded(m))
  {
    hide NameOk, EntryOk, Finished, BeginAll, StoreAll, LoadFrom, Print, ReloadItems, AddItems;
    forall s <- sections
      ensures NameOk(s.name) && AllOk(s.items)
    {
      forall item <- s.items
        ensures EntryOk(item.key, item.value)
      {
        assert item.key in m[s.name];
      }
    }
    LoadPrinted(START, sections);
    FinishedAll(sections);
    StoresReloaded(sections, m);
    SingleNameless(sections, m);
  }

  // ---------------------------------------------------------------- every load gives a loadable map

  ghost predicate LoadingOk(l: Loading) {
    Loadable(l.sections) && NameOk(l.name) && ItemsOk(l.items)
  }

  lemma BracketNameOk(t: string, open: nat)
    requires OnOneLine(t) && |t| <= MAX_LINE && open < |t| && t[open] == '['
    ensures BracketLine(t, open).SectionLine? ==> NameOk(BracketLine(t, open).name)
    ensures !BracketLine(t, open).Entry?
  {
  }

  lemma EntryLineOk(t: string)
    requires OnOneLine(t) && |t| <= MAX_LINE && '[' !in t && t != "" && Trimmed(t)
    ensures EntryLine(t).Entry? ==> EntryOk(EntryLine(t).key, EntryLine(t).value)
    ensures !EntryLine(t).Throws? && !EntryLine(t).SectionLine?
  {
    var k := Find(t, '=');
    if k < |t| {
      FindIsFirst(t, '=', k);
      var key, value := t[..k], t[k + 1..];
      assert '=' !in key;
      assert forall c <- key :: c in t;
      assert forall c <- value :: c in t;
      TrimAtStart(key);
      TrimAtEnd(value);
    }
  }

  /** A prefix that starts without a space. */
  lemma TrimAtStart(s: string)
    requires s != "" ==> s[0] != ' '
    ensures Trim(s).Some? && Trim(s).value <= s
  {
  }

  /** A suffix that ends without a space. */
  lemma TrimAtEnd(s: string)
    requires s != "" ==> s[|s| - 1] != ' '
    ensures Trim(s).Some?
  {
    if s != "" {
      TrimLeftEnds(s);
    }
  }

  lemma {:induction false} TrimLeftEnds(s: string)
    requires s != "" && s[|s| - 1] != ' '
    ensures TrimLeft(s) != ""
  {
    if s[0] == ' ' {
      TrimLeftEnds(s[1..]);
    }
  }

  lemma MeaningOk(line: string)
    requires |line| <= MAX_LINE && '\n' !in line
    ensures MeaningOf(line).SectionLine? ==> NameOk(MeaningOf(line).name)
    ensures MeaningOf(line).Entry? ==> EntryOk(MeaningOf(line).key, MeaningOf(line).value)
  {
    hide EntryLine, BracketLine, NameOk, EntryOk;
    var s := Uncarried(UntilNul(line));
    assert forall c <- UntilNul(line) :: c in line;
    if s != "" && Trim(s).Some? {
      var t := Trim(s).value;
      assert OnOneLine(t) && t != "" && Trimmed(t);
      FindIsFirst(t, '[', Find(t, '['));
      if Find(t, '[') < |t| {
        BracketNameOk(t, Find(t, '['));
      } else {
        EntryLineOk(t);
      }
    }
  }

  lemma {:induction false} LoadedIsLoadable(l: Loading, text: string)
    requires LoadingOk(l)
    ensures LoadFrom(l, text).Loaded? ==> Loadable(LoadFrom(l, text).sections)
    decreases |text|
  {
    hide MeaningOf, NameOk, EntryOk;
    match NextLine(text)
    case NoMore =>
    case GotLine(line, rest) =>
      FindIsFirst(text, '\n', Find(text, '\n'));
      assert '\n' !in line;
      MeaningOk(line);
      var m := MeaningOf(line);
      if !m.Unclosed? && !m.Throws? {
        LoadedIsLoadable(Take(l, m), rest);
      }
  }

  // ---------------------------------------------------------------- the round trip

  lemma ShorterReload(value: string)
    ensures Reload(value) == value ==> Uncarried(value) == value
    ensures Trimmed(value) && Uncarried(value) == value ==> Reload(value) == value
  {
  }

  /** Loading a printed map gives the map back exactly when it is well formed. */
  lemma RoundTripExactly(sections: seq<Section>, m: Sections)
    requires Arranges(sections, m)
    ensures LoadFrom(START, Print(sections)) == Loaded(m) <==> WellFormed(m)
  {
    hide LoadFrom, Print, Arranges, Reload, Uncarried, EntryOk;
    var outcome := LoadFrom(START, Print(sections));
    if outcome == Loaded(m) {
      LoadedIsLoadable(START, Print(sections));
    }
    if Loadable(m) {
      LoadReloads(sections, m);
      ReloadedIsSame(m);
    }
  }

  lemma ReloadedIsSame(m: Sections)
    requires Loadable(m)
    ensures Reloaded(m) == m <==> WellFormed(m)
  {
    hide Uncarried, NameOk;
    forall name <- m, key <- m[name]
      ensures ReloadItems(m[name])[key] == m[name][key] <==> Uncarried(m[name][key]) == m[name][key]
    {
      ShorterReload(m[name][key]);
    }
    if m.Keys == {""} {
      assert "" in m;
    } else {
      forall name <- m
        ensures Reloaded(m)[name] == ReloadItems(m[name])
        ensures ReloadItems(m[name]) == m[name] <==> forall key <- m[name] :: Uncarried(m[name][key]) == m[name][key]
      {
        if forall key <- m[name] :: Uncarried(m[name][key]) == m[name][key] {
          assert ReloadItems(m[name]) == m[name];
        }
      }
      if WellFormed(m) {
        assert Reloaded(m) == m;
      }
    }
  }
}
