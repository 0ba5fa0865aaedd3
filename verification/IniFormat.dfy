/** What the lines of an INI file mean, whatever spaces, comments and line ends they have,
    and what a section of such lines is loaded as. */
module IniFormat {
  import opened Wrappers
  import opened Strings
  import opened Ini

  function Spaces(n: nat): (s: string)
    ensures |s| == n && forall k :: 0 <= k < n ==> s[k] == ' '
  {
    seq(n, _ => ' ')
  }

  // ---------------------------------------------------------------- trimming

  lemma {:induction false} TrimLeftOf(pre: string, s: string)
    requires s != "" && s[0] != ' '
    ensures TrimLeft(pre + s) == TrimLeft(pre) + s
  {
    if pre == "" {
      assert pre + s == s;
    } else if pre[0] == ' ' {
      assert (pre + s)[1..] == pre[1..] + s;
      TrimLeftOf(pre[1..], s);
    }
  }

  lemma {:induction false} TrimRightSpaces(n: nat)
    ensures TrimRight(Spaces(n)) == ""
  {
    if n > 0 {
      assert Spaces(n)[..n - 1] == Spaces(n - 1);
      TrimRightSpaces(n - 1);
    }
  }

  /** Spaces around a text are dropped, and no others. */
  lemma TrimSpaced(a: nat, s: string, b: nat)
    requires s != "" && Trimmed(s)
    ensures Trim(Spaces(a) + s + Spaces(b)) == Some(s)
  {
    hide TrimLeft, TrimRight, Spaces;
    assert Spaces(a) + s + Spaces(b) == Spaces(a) + (s + Spaces(b));
    TrimLeftOf(Spaces(a), s + Spaces(b));
    assert "" + (s + Spaces(b)) == s + Spaces(b);
    TrimRightAfter(s, Spaces(b));
    TrimRightSpaces(b);
    assert s + "" == s;
  }

  lemma SpacedPieces(key: string, b: nat, c: nat, value: string)
    requires Trimmed(key) && Trimmed(value) && (key == "" ==> b == 0) && (value == "" ==> c == 0)
    ensures Trim(key + Spaces(b)) == Some(key) && Trim(Spaces(c) + value) == Some(value)
  {
    hide Trim, Spaces;
    assert Spaces(0) == "";
    if key != "" {
      TrimSpaced(0, key, b);
      assert "" + key + Spaces(b) == key + Spaces(b);
    } else {
      assert key + Spaces(b) == "";
    }
    if value != "" {
      TrimSpaced(c, value, 0);
      assert Spaces(c) + value + "" == Spaces(c) + value;
    } else {
      assert Spaces(c) + value == "";
    }
  }

  // ---------------------------------------------------------------- item lines

  /** A key, an equals sign and a value without spaces at either end of the line. */
  lemma CoreMeaning(key: string, b: nat, c: nat, value: string)
    requires KeyOk(key) && '[' !in value && Trimmed(value) && (key == "" ==> b == 0) && (value == "" ==> c == 0)
    ensures var t := (key + Spaces(b)) + "=" + (Spaces(c) + value);
            t != "" && Trimmed(t) && TrimmedLine(t) == Entry(key, value)
  {
    hide Trim, Find, Spaces;
    var left, right := key + Spaces(b), Spaces(c) + value;
    SpacedPieces(key, b, c, value);
    NoneOf(key, Spaces(b), '=');
    NoneOf(key, Spaces(b), '[');
    NoneOf(Spaces(c), value, '[');
    SplitAt(left, right);
    NoneOf(left, "=", '[');
    NoneOf(left + "=", right, '[');
    FindsNone(left + "=" + right, '[');
    CoreTrimmed(key, b, c, value);
  }

  lemma CoreTrimmed(key: string, b: nat, c: nat, value: string)
    requires KeyOk(key) && Trimmed(value) && (key == "" ==> b == 0) && (value == "" ==> c == 0)
    ensures var t := (key + Spaces(b)) + "=" + (Spaces(c) + value);
            Trimmed(t) && t[0] != ';' && t[0] != '#'
  {
  }

  lemma NoneOf(x: string, y: string, c: char)
    requires c !in x && c !in y
    ensures c !in x + y
  {
  }

  lemma SplitAt(left: string, right: string)
    requires '=' !in left
    ensures var t := left + "=" + right; Find(t, '=') == |left| && t[..|left|] == left && t[|left| + 1..] == right
  {
    var t := left + "=" + right;
    forall i | 0 <= i < |left|
      ensures t[i] != '='
    {
      assert left[i] in left;
    }
    FindIsFirst(t, '=', |left|);
  }

  /** What the ends of a line are: spaces and at most one carriage return. */
  lemma LineEnds(a: nat, t: string, d: nat, end: string)
    requires t != "" && Trimmed(t) && '\0' !in t && (end == "\r" || (end == "" && (d > 0 || t[|t| - 1] != '\r')))
    ensures MeaningOf(Spaces(a) + t + Spaces(d) + end) == TrimmedLine(t)
  {
    hide Spaces, TrimmedLine, Trim;
    var line := Spaces(a) + t + Spaces(d);
    assert '\0' !in line + end;
    assert Uncarried(line + end) == line by {
      if end == "\r" {
        assert (line + end)[..|line + end| - 1] == line;
      } else {
        assert line + end == line;
        if d > 0 {
          assert line[|line| - 1] == Spaces(d)[d - 1];
        } else {
          assert line[|line| - 1] == t[|t| - 1];
        }
      }
    }
    TrimSpaced(a, t, d);
  }

  /** An item line means its key and its value whatever spaces are around them. */
  lemma SpacedEntry(a: nat, key: string, b: nat, c: nat, value: string, d: nat, end: string)
    requires KeyOk(key) && OnOneLine(value) && '[' !in value && Trimmed(value)
    requires end == "\r" || (end == "" && (d > 0 || value == "" || value[|value| - 1] != '\r'))
    ensures MeaningOf((Spaces(a) + key + Spaces(b)) + "=" + (Spaces(c) + value + Spaces(d)) + end) == Entry(key, value)
  {
    hide *;
    var a', b' := if key == "" then a + b else a, if key == "" then 0 else b;
    var d', c' := if value == "" then c + d else d, if value == "" then 0 else c;
    var t := (key + Spaces(b')) + "=" + (Spaces(c') + value);
    CoreMeaning(key, b', c', value);
    Shifted(a, key, b, c, value, d);
    Joined(Spaces(a'), key + Spaces(b'), Spaces(c') + value, Spaces(d'));
    CoreEnds(key, b', c', value);
    LineEnds(a', t, d', end);
  }

  lemma Shifted(a: nat, key: string, b: nat, c: nat, value: string, d: nat)
    ensures Spaces(a) + key + Spaces(b)
         == if key == "" then Spaces(a + b) + (key + Spaces(0)) else Spaces(a) + (key + Spaces(b))
    ensures Spaces(c) + value + Spaces(d)
         == if value == "" then (Spaces(0) + value) + Spaces(c + d) else (Spaces(c) + value) + Spaces(d)
  {
  }

  lemma Joined(a: string, left: string, right: string, d: string)
    ensures (a + left) + "=" + (right + d) == a + (left + "=" + right) + d
  {
  }

  lemma CoreEnds(key: string, b: nat, c: nat, value: string)
    requires KeyOk(key) && OnOneLine(value)
    ensures var t := (key + Spaces(b)) + "=" + (Spaces(c) + value);
            && '\0' !in t && (value == "" && c == 0 ==> t[|t| - 1] == '=')
            && (value != "" ==> t[|t| - 1] == value[|value| - 1])
  {
  }

  // ---------------------------------------------------------------- other lines

  /** A line ends at a NUL, and a carriage return at its end is no part of it. */
  lemma LineIsCut(s: string, after: string)
    requires '\0' !in s
    ensures MeaningOf(s + "\0" + after) == MeaningOf(s)
    ensures s == "" || s[|s| - 1] != '\r' ==> MeaningOf(s + "\r") == MeaningOf(s)
  {
    hide Trim, TrimmedLine;
    CutAtNul(s, after);
    if s == "" || s[|s| - 1] != '\r' {
      assert '\0' !in s + "\r";
      assert (s + "\r")[..|s|] == s;
    }
  }

  lemma {:induction false} CutAtNul(s: string, after: string)
    requires '\0' !in s
    ensures UntilNul(s + "\0" + after) == s
  {
    if s != "" {
      assert s[0] in s && (s + "\0" + after)[1..] == s[1..] + "\0" + after;
      CutAtNul(s[1..], after);
    }
  }

  /** A line of nothing means nothing; one of spaces throws. */
  lemma BlankLine(n: nat)
    ensures MeaningOf(Spaces(n)) == if n == 0 then Nothing else Throws
  {
  }

  /** A line without brackets that is a comment, or has no equals sign, means nothing. */
  lemma IdleLine(a: nat, t: string)
    requires t != "" && t[0] != ' ' && t[0] != '\r' && '\0' !in t && '[' !in t
    requires t[0] == ';' || t[0] == '#' || '=' !in t
    ensures MeaningOf(Spaces(a) + t) == Nothing
  {
    hide Spaces, TrimmedLine;
    var cut := Uncarried(t);
    assert cut != "" && cut[0] == t[0] && cut <= t;
    assert '\0' !in Spaces(a) + t;
    assert Uncarried(Spaces(a) + t) == Spaces(a) + cut;
    TrimLeftSpaces(a, cut);
    IdleText(TrimRight(cut), t);
  }

  lemma TrimLeftSpaces(a: nat, s: string)
    requires s != "" && s[0] != ' '
    ensures Trim(Spaces(a) + s) == Some(TrimRight(s))
  {
    hide TrimRight;
    TrimLeftOf(Spaces(a), s);
    assert "" + s == s;
  }

  lemma IdleText(w: string, t: string)
    requires w != "" && w <= t && '[' !in t && (t[0] == ';' || t[0] == '#' || '=' !in t)
    ensures TrimmedLine(w) == Nothing
  {
    assert forall c <- w :: c in t;
    FindsNone(w, '[');
    if '=' !in t {
      FindsNone(w, '=');
    }
  }

  lemma {:induction false} LastIs(s: string, c: char, k: nat)
    requires k < |s| && s[k] == c && forall i :: k < i < |s| ==> s[i] != c
    ensures FindLast(s, c) == Some(k)
  {
    if k < |s| - 1 {
      LastIs(s[..|s| - 1], c, k);
    }
  }

  lemma {:induction false} LastIsNone(s: string, c: char)
    requires c !in s
    ensures FindLast(s, c) == None
  {
    if s != "" {
      LastIsNone(s[..|s| - 1], c);
    }
  }

  lemma FirstIs(pre: string, c: char, post: string)
    requires c !in pre
    ensures Find(pre + [c] + post, c) == |pre|
  {
    var s := pre + [c] + post;
    forall i | 0 <= i < |pre|
      ensures s[i] != c
    {
      assert pre[i] in pre;
    }
    FindIsFirst(s, c, |pre|);
  }

  /** What a line with a bracket becomes when its ends are trimmed. */
  lemma BracketTrims(pre: string, post: string)
    requires '\0' !in pre && '\0' !in post
    ensures MeaningOf(pre + "[" + post) == TrimmedLine(TrimLeft(pre) + "[" + TrimRight(Uncarried(post)))
  {
    hide TrimmedLine, Uncarried, TrimLeft, TrimRight;
    assert '\0' !in pre + "[" + post;
    UncarriedAfter(pre + "[", post);
    BracketTrim(pre, Uncarried(post));
  }

  lemma BracketTrim(pre: string, post: string)
    ensures Trim(pre + "[" + post) == Some(TrimLeft(pre) + "[" + TrimRight(post))
  {
    hide TrimLeft, TrimRight;
    assert pre + "[" + post == pre + ("[" + post);
    TrimLeftOf(pre, "[" + post);
    assert TrimLeft(pre) + ("[" + post) == (TrimLeft(pre) + "[") + post;
    TrimRightAfter(TrimLeft(pre) + "[", post);
  }

  /** The name of a section is what is between the first opening and the last closing
      bracket of a line, wherever they are. */
  lemma SectionMeaning(pre: string, name: string, post: string)
    requires '[' !in pre && ']' !in post && '\0' !in pre && '\0' !in name && '\0' !in post
    ensures MeaningOf(pre + "[" + (name + "]" + post)) == SectionLine(name)
  {
    hide MeaningOf, Find, FindLast, TrimRight, TrimLeft, Uncarried;
    BracketTrims(pre, name + "]" + post);
    UncarriedAfter(name + "]", post);
    TrimRightAfter(name + "]", Uncarried(post));
    var left, right := TrimLeft(pre), TrimRight(Uncarried(post));
    assert forall c <- left :: c in pre;
    TailKeeps(post, ']');
    Between(left, name, right);
  }

  lemma UncarriedAfter(head: string, tail: string)
    requires head != "" && head[|head| - 1] != '\r'
    ensures Uncarried(head + tail) == head + Uncarried(tail)
  {
    if tail == "" {
      assert head + tail == head;
    }
  }

  lemma TailKeeps(s: string, c: char)
    requires c !in s
    ensures c !in TrimRight(Uncarried(s))
  {
    assert TrimRight(Uncarried(s)) <= Uncarried(s);
  }

  lemma Between(left: string, name: string, right: string)
    requires '[' !in left && ']' !in right
    ensures TrimmedLine(left + "[" + (name + "]" + right)) == SectionLine(name)
  {
    hide Find, FindLast;
    var t, k := left + "[" + (name + "]" + right), |left| + 1 + |name|;
    FirstIs(left, '[', name + "]" + right);
    forall i | k < i < |t|
      ensures t[i] != ']'
    {
      assert t[i] == right[i - k - 1] && right[i - k - 1] in right;
    }
    assert t[k] == ']';
    LastIs(t, ']', k);
    assert t[|left| + 1..k] == name;
  }

  /** Without a closing bracket the line is refused; with one before the opening bracket
      only, the name is all that follows that. */
  lemma OddBrackets(pre: string, post: string)
    requires '[' !in pre && '\0' !in pre && '\0' !in post && ']' !in post
    ensures ']' !in pre ==> MeaningOf(pre + "[" + post) == Unclosed
    ensures ']' in pre ==> MeaningOf(pre + "[" + post) == SectionLine(TrimRight(Uncarried(post)))
  {
    hide MeaningOf, Find, TrimRight, TrimLeft, Uncarried;
    BracketTrims(pre, post);
    var left, right := TrimLeft(pre), TrimRight(Uncarried(post));
    TailKeeps(post, ']');
    TrimLeftHas(pre, ']');
    assert forall c <- left :: c in pre;
    FirstIs(left, '[', right);
    var t := left + "[" + right;
    assert t[|left| + 1..] == right;
    if ']' in pre {
      LastBefore(left, right);
    } else {
      LastIsNone(t, ']');
    }
  }

  lemma {:induction false} TrimLeftHas(s: string, c: char)
    requires c != ' '
    ensures c in TrimLeft(s) <==> c in s
  {
    if s != "" && s[0] == ' ' {
      TrimLeftHas(s[1..], c);
    }
  }

  lemma {:induction false} LastBefore(left: string, right: string)
    requires ']' in left && ']' !in right
    ensures var k := FindLast(left + "[" + right, ']'); k.Some? && k.value < |left|
  {
    if right == "" {
      assert (left + "[" + right)[..|left|] == left;
    } else {
      assert (left + "[" + right)[..|left + "[" + right| - 1] == left + "[" + right[..|right| - 1];
      LastBefore(left, right[..|right| - 1]);
    }
  }

  // ---------------------------------------------------------------- whole files

  function Lines(lines: seq<string>): string {
    if lines == [] then "" else lines[0] + "\n" + Lines(lines[1..])
  }

  /** The value of the last line that is an item with this key. */
  ghost function LastValue(lines: seq<string>, key: string): Option<string> {
    if lines == [] then None
    else
      match MeaningOf(lines[|lines| - 1])
      case Entry(k, value) => if k == key then Some(value) else LastValue(lines[..|lines| - 1], key)
      case _ => LastValue(lines[..|lines| - 1], key)
  }

  /** Lines that fit the buffer and are items or mean nothing. */
  ghost predicate ItemLines(lines: seq<string>) {
    forall i :: 0 <= i < |lines| ==>
      && OnOneLine(lines[i]) && |lines[i]| <= 10239
      && (MeaningOf(lines[i]).Entry? || MeaningOf(lines[i]).Nothing?)
  }

  function AddLines(items: Items, lines: seq<string>): Items
    decreases |lines|
  {
    if lines == [] then items
    else
      match MeaningOf(lines[0])
      case Entry(key, value) => AddLines(items[key := value], lines[1..])
      case _ => AddLines(items, lines[1..])
  }

  lemma {:induction false} LinesAreLoaded(l: Loading, lines: seq<string>, rest: string)
    requires ItemLines(lines)
    ensures LoadFrom(l, Lines(lines) + rest) == LoadFrom(l.(items := AddLines(l.items, lines)), rest)
    decreases |lines|
  {
    hide LoadFrom, MeaningOf;
    if lines == [] {
      assert Lines(lines) + rest == rest;
    } else {
      var tail := Lines(lines[1..]) + rest;
      assert Lines(lines) + rest == lines[0] + "\n" + tail;
      LoadLine(l, lines[0], tail);
      LinesAreLoaded(Take(l, MeaningOf(lines[0])), lines[1..], rest);
    }
  }

  lemma {:induction false} LastIsAdded(items: Items, lines: seq<string>, key: string)
    ensures var last, added := LastValue(lines, key), AddLines(items, lines);
            if last.Some? then key in added && added[key] == last.value
            else key in added <==> key in items
    ensures LastValue(lines, key).None? && key in items ==> AddLines(items, lines)[key] == items[key]
    decreases |lines|
  {
    hide MeaningOf;
    if lines != [] {
      var first := MeaningOf(lines[0]);
      LastIsAdded(if first.Entry? then items[first.key := first.value] else items, lines[1..], key);
      FirstOfLast(lines, key);
    }
  }

  lemma {:induction false} FirstOfLast(lines: seq<string>, key: string)
    requires lines != []
    ensures var later, first := LastValue(lines[1..], key), MeaningOf(lines[0]);
            LastValue(lines, key)
            == if later.Some? then later else if first.Entry? && first.key == key then Some(first.value) else None
    decreases |lines|
  {
    hide MeaningOf;
    var n := |lines| - 1;
    if n > 0 {
      assert lines[..n][1..] == lines[1..][..n - 1] && lines[..n][0] == lines[0];
      FirstOfLast(lines[..n], key);
    } else {
      assert lines[..0] == [] && lines[1..] == [];
    }
  }

  /** A section line and item lines, whatever comments and idle lines are among them: each
      key has the value it was given last. */
  lemma SectionIsLoaded(name: string, lines: seq<string>)
    requires name != "" && OnOneLine(name) && |name| + 2 <= 10239 && ItemLines(lines)
    ensures var r := LoadFrom(START, "[" + name + "]\n" + Lines(lines));
            && r.Loaded? && r.sections.Keys == {name}
            && forall key: string ::
                 && (key in r.sections[name] <==> LastValue(lines, key).Some?)
                 && (key in r.sections[name] ==> r.sections[name][key] == LastValue(lines, key).value)
  {
    hide LoadFrom, MeaningOf, LastValue, AddLines, ItemLines;
    var head := "[" + name + "]";
    assert '\n' !in head && '\0' !in head;
    NameMeaning(name);
    assert NameLine(name) == head;
    assert head + "\n" + Lines(lines) == "[" + name + "]\n" + Lines(lines);
    assert Lines(lines) + "" == Lines(lines);
    LoadLine(START, head, Lines(lines));
    var begun := Take(START, SectionLine(name));
    LinesAreLoaded(begun, lines, "");
    NothingMore(begun.(items := AddLines(map[], lines)));
    forall key: string
      ensures key in AddLines(map[], lines) <==> LastValue(lines, key).Some?
      ensures key in AddLines(map[], lines) ==> AddLines(map[], lines)[key] == LastValue(lines, key).value
    {
      LastIsAdded(map[], lines, key);
    }
  }

  /** At the end of the file the section that was begun is complete. */
  lemma NothingMore(l: Loading)
    ensures LoadFrom(l, "") == Loaded(if l.name != "" then l.sections[l.name := l.items] else l.sections)
  {
  }

  /** A section line completes the section before it; a section that comes again starts anew. */
  lemma SectionBegins(l: Loading, name: string, rest: string)
    requires OnOneLine(name) && |name| + 2 <= 10239
    ensures LoadFrom(l, "[" + name + "]\n" + rest)
         == LoadFrom(Loading(if l.begun then l.sections[l.name := l.items] else l.sections, name, true, map[]), rest)
  {
    hide LoadFrom, MeaningOf;
    var head := "[" + name + "]";
    assert '\n' !in head && '\0' !in head;
    NameMeaning(name);
    assert NameLine(name) == head;
    assert head + "\n" + rest == "[" + name + "]\n" + rest;
    LoadLine(l, head, rest);
  }

  /** What is written: a section in brackets, then its items without spaces. */
  lemma PrintedInText(name: string, key: string, value: string, sections: seq<Section>)
    ensures Print([Section(name, [Item(key, value)])] + sections)
         == "[" + name + "]\n" + (key + "=" + value + "\n") + Print(sections)
  {
    var all := [Section(name, [Item(key, value)])] + sections;
    assert all[1..] == sections;
    assert PrintItems([Item(key, value)]) == ItemLine(Item(key, value)) + "\n" + PrintItems([]);
    assert ItemLine(Item(key, value)) + "\n" + "" == key + "=" + value + "\n";
    assert NameLine(name) + "\n" == "[" + name + "]\n";
  }

  /** The last line may do without its line feed; a line that does not fit the buffer of
      10240 bytes ends the file; a line that cannot be read ends the load. */
  lemma LoadEnds(l: Loading, line: string, rest: string)
    requires '\n' !in line
    ensures line != "" ==> LoadFrom(l, line) == LoadFrom(l, line + "\n")
    ensures |line| > 10239 ==> LoadFrom(l, line + "\n" + rest) == LoadFrom(l, "")
    ensures |line| <= 10239 && MeaningOf(line).Unclosed? ==> LoadFrom(l, line + "\n" + rest) == Rejected(l.sections)
    ensures |line| <= 10239 && MeaningOf(line).Throws? ==> LoadFrom(l, line + "\n" + rest) == Threw(l.sections)
  {
    hide MeaningOf, Take, Finished, Find;
    NextLines(line, rest);
    NextLines(line, "");
    assert line + "\n" + "" == line + "\n";
  }

  lemma NextLines(line: string, rest: string)
    requires '\n' !in line
    ensures NextLine(line + "\n" + rest) == if |line| > 10239 then NoMore else GotLine(line, rest)
    ensures NextLine(line) == if line == "" || |line| > 10239 then NoMore else GotLine(line, "")
  {
    hide Find;
    FirstIs(line, '\n', rest);
    FindsNone(line, '\n');
    assert line + ['\n'] + rest == line + "\n" + rest;
    assert (line + "\n" + rest)[..|line|] == line && (line + "\n" + rest)[|line| + 1..] == rest;
    assert line[..|line|] == line;
  }
}
