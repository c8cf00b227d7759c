/** The configuration reader: what `get_config_value` finds in a file, and that it finds what a file was written to
    say. */
module Config {

  predicate Blank(ch: char) {
    ch == ' ' || ch == '\t' || ch == '\r' || ch == '\n'
  }

  predicate AllBlank(s: string) {
    forall i | 0 <= i < |s| :: Blank(s[i])
  }

  /** `find_first_not_of`; the length stands for `npos`. */
  function FirstNotBlank(s: string): (n: nat)
    ensures n <= |s| && (forall i | 0 <= i < n :: Blank(s[i])) && (n < |s| ==> !Blank(s[n]))
  {
    if s == "" || !Blank(s[0]) then 0 else 1 + FirstNotBlank(s[1..])
  }

  /** One more than `find_last_not_of`; zero stands for `npos`. */
  function LastNotBlank(s: string): (n: nat)
    ensures n <= |s| && (forall i | n <= i < |s| :: Blank(s[i])) && (n > 0 ==> !Blank(s[n - 1]))
  {
    if s == "" || !Blank(s[|s| - 1]) then |s| else LastNotBlank(s[..|s| - 1])
  }

  function Trim(s: string): string {
    var first := FirstNotBlank(s);
    if first == |s| then "" else s[first..LastNotBlank(s)]
  }

  predicate Trimmed(t: string) {
    t != "" ==> !Blank(t[0]) && !Blank(t[|t| - 1])
  }

  /** Padding is all that trimming removes, and it removes all of it. */
  lemma TrimPadded(a: string, t: string, b: string)
    requires AllBlank(a) && AllBlank(b) && Trimmed(t)
    ensures Trim(a + t + b) == t
  {
    var s := a + t + b;
    assert forall i | 0 <= i < |a| :: s[i] == a[i];
    assert forall i | 0 <= i < |b| :: s[|a| + |t| + i] == b[i];
    if t != "" {
      assert s[|a|] == t[0] && s[|a| + |t| - 1] == t[|t| - 1];
      assert FirstNotBlank(s) == |a| && LastNotBlank(s) == |a| + |t|;
      assert s[|a|..|a| + |t|] == t;
    }
  }

  /** Where trimming cuts a text with something visible at position `mid`. */
  lemma TrimSpan(s: string, mid: nat) returns (first: nat, end: nat)
    requires mid < |s| && !Blank(s[mid])
    ensures first <= mid < end <= |s| && Trim(s) == s[first..end]
    ensures AllBlank(s[..first]) && AllBlank(s[end..]) && !Blank(s[first]) && !Blank(s[end - 1])
  {
    first, end := FirstNotBlank(s), LastNotBlank(s);
    BlankSlices(s, first, end);
  }

  lemma TrimSound(s: string) returns (a: string, b: string)
    ensures AllBlank(a) && AllBlank(b) && Trimmed(Trim(s)) && s == a + Trim(s) + b
  {
    if AllBlank(s) {
      a, b := s, "";
      BlankTrims(s);
    } else {
      hide *;
      a, b := TrimVisible(s);
    }
  }

  lemma TrimVisible(s: string) returns (a: string, b: string)
    requires !AllBlank(s)
    ensures AllBlank(a) && AllBlank(b) && Trimmed(Trim(s)) && s == a + Trim(s) + b
  {
    var mid :| 0 <= mid < |s| && !Blank(s[mid]);
    hide *;
    var first, end := TrimSpan(s, mid);
    a, b := s[..first], s[end..];
    ThreeParts(s, first, end);
    EndsVisible(s, first, end);
  }

  lemma ThreeParts(s: string, i: nat, j: nat)
    requires i <= j <= |s|
    ensures s == s[..i] + s[i..j] + s[j..]
  {
    assert s[..i] + s[i..j] == s[..j];
  }

  lemma EndsVisible(s: string, i: nat, j: nat)
    requires i < j <= |s| && !Blank(s[i]) && !Blank(s[j - 1])
    ensures Trimmed(s[i..j])
  {
  }

  lemma BlankSlices(s: string, first: nat, end: nat)
    requires first <= |s| && end <= |s|
    requires (forall i | 0 <= i < first :: Blank(s[i])) && (forall i | end <= i < |s| :: Blank(s[i]))
    ensures AllBlank(s[..first]) && AllBlank(s[end..])
  {
  }

  lemma BlankConcat(a: string, b: string)
    requires AllBlank(a) && AllBlank(b)
    ensures AllBlank(a + b)
  {
  }

  // ---- Lines ------------------------------------------------------------------------------

  function IndexOf(s: string, ch: char): (n: nat)
    ensures n <= |s| && (forall i | 0 <= i < n :: s[i] != ch) && (n < |s| ==> s[n] == ch)
  {
    if s == "" || s[0] == ch then 0 else 1 + IndexOf(s[1..], ch)
  }

  /** The successive results of `std::getline`. */
  function Lines(text: string): seq<string>
    decreases |text|
  {
    if text == "" then []
    else
      var n := IndexOf(text, '\n');
      if n == |text| then [text] else [text[..n]] + Lines(text[n + 1..])
  }

  lemma IndexOfSplit(a: string, ch: char, b: string)
    requires ch !in a
    ensures IndexOf(a + [ch] + b, ch) == |a|
  {
    var s := a + [ch] + b;
    assert s[|a|] == ch;
    assert forall i | 0 <= i < |a| :: s[i] == a[i];
  }

  lemma LinesCons(line: string, rest: string)
    requires '\n' !in line
    ensures Lines(line + "\n" + rest) == [line] + Lines(rest)
  {
    var text := line + "\n" + rest;
    IndexOfSplit(line, '\n', rest);
    assert text == line + ['\n'] + rest;
    assert text[..|line|] == line && text[|line| + 1..] == rest;
  }

  /** Lines, each with its terminator. */
  function Terminated(lines: seq<string>): string {
    if lines == [] then "" else lines[0] + "\n" + Terminated(lines[1..])
  }

  /** What is read as `lines`: every line terminated, or all but the last, which then is not empty. */
  predicate Spells(text: string, lines: seq<string>) {
    && (forall i | 0 <= i < |lines| :: '\n' !in lines[i])
    && (text == Terminated(lines) || (text != "" && text[|text| - 1] != '\n' && text + "\n" == Terminated(lines)))
  }

  lemma {:induction false} LinesOfTerminated(lines: seq<string>)
    requires forall i | 0 <= i < |lines| :: '\n' !in lines[i]
    ensures Lines(Terminated(lines)) == lines
  {
    hide Lines;
    if lines == [] {
      NoLines();
    } else {
      LinesOfTerminated(lines[1..]);
      LinesCons(lines[0], Terminated(lines[1..]));
    }
  }

  lemma NoLines()
    ensures Lines("") == []
  {
  }

  /** A missing terminator at the end makes no difference. */
  lemma {:induction false} LastTerminator(text: string)
    requires text != "" && text[|text| - 1] != '\n'
    ensures Lines(text) == Lines(text + "\n")
    decreases |text|
  {
    var n := IndexOf(text, '\n');
    if n == |text| {
      LinesCons(text, "");
      assert text + "\n" + "" == text + "\n";
      NoLines();
    } else {
      var line, rest := text[..n], text[n + 1..];
      assert text == line + "\n" + rest;
      assert text + "\n" == line + "\n" + (rest + "\n");
      assert rest[|rest| - 1] == text[|text| - 1];
      LastTerminator(rest);
      LinesCons(line, rest);
      LinesCons(line, rest + "\n");
    }
  }

  lemma {:induction false} LinesSound(text: string)
    ensures Spells(text, Lines(text))
    decreases |text|
  {
    hide Lines;
    if text != "" {
      LinesUnfold(text);
      var n := IndexOf(text, '\n');
      if n == |text| {
        assert [text][1..] == [] && Terminated([text]) == text + "\n" + Terminated([]);
        assert text + "\n" + "" == text + "\n";
      } else {
        var line, rest := text[..n], text[n + 1..];
        LinesSound(rest);
        assert ([line] + Lines(rest))[1..] == Lines(rest);
        assert text == line + "\n" + rest;
        assert text + "\n" == line + "\n" + (rest + "\n");
        assert rest != "" ==> rest[|rest| - 1] == text[|text| - 1];
      }
    } else {
      NoLines();
    }
  }

  lemma LinesUnfold(text: string)
    requires text != ""
    ensures var n := IndexOf(text, '\n');
      Lines(text) == if n == |text| then [text] else [text[..n]] + Lines(text[n + 1..])
  {
    hide IndexOf;
  }

  /** A text is read as exactly the one sequence of lines that spells it. */
  lemma LinesExact(text: string, lines: seq<string>)
    ensures Lines(text) == lines <==> Spells(text, lines)
  {
    LinesSound(text);
    if Spells(text, lines) {
      LinesOfTerminated(lines);
      if text != Terminated(lines) {
        LastTerminator(text);
      }
    }
  }

  // ---- What a line says ---------------------------------------------------------------------

  datatype Line = Nothing | Section(name: string) | Setting(key: string, value: string)

  function ReadLine(raw: string): Line {
    var line := Trim(raw);
    if line == "" || line[0] == ';' || line[0] == '#' then Nothing
    else if line[0] == '[' && line[|line| - 1] == ']' && |line| >= 2 then Section(line[1..|line| - 1])
    else
      var pos := IndexOf(line, '=');
      if pos == |line| then Nothing else Setting(Trim(line[..pos]), Trim(line[pos + 1..]))
  }

  predicate Remark(line: string) {
    line == "" || line[0] == ';' || line[0] == '#'
  }

  predicate Bracketed(line: string) {
    line != "" && line[0] == '[' && line[|line| - 1] == ']'
  }

  /** Exactly what a line says: a section if, trimmed, it is a name in brackets; a setting if it is neither a remark nor
      that and has an '=', the first of which parts key and value; and nothing otherwise. */
  lemma ReadLineExact(raw: string, name: string, x: string, y: string)
    ensures ReadLine(raw) == Section(name) <==> Trim(raw) == "[" + name + "]"
    ensures Trim(raw) == x + "=" + y && '=' !in x && !Remark(Trim(raw)) && !Bracketed(Trim(raw))
      ==> ReadLine(raw) == Setting(Trim(x), Trim(y))
    ensures ReadLine(raw) == Nothing <==> Remark(Trim(raw)) || (!Bracketed(Trim(raw)) && '=' !in Trim(raw))
  {
    hide Trim, IndexOf;
    var line := Trim(raw);
    if line == "[" + name + "]" {
      assert line[1..|line| - 1] == name;
    }
    if Bracketed(line) {
      assert line == "[" + line[1..|line| - 1] + "]";
    }
    if line == x + "=" + y && '=' !in x {
      IndexOfSplit(x, '=', y);
      assert line == x + ['='] + y;
      assert line[..|x|] == x && line[|x| + 1..] == y;
    }
  }

  datatype Entry = Entry(section: string, key: string, value: string)

  /** Every setting of a file with the section it stands in. */
  function EntriesOf(lines: seq<string>, section: string): seq<Entry> {
    if lines == [] then []
    else match ReadLine(lines[0])
      case Nothing => EntriesOf(lines[1..], section)
      case Section(name) => EntriesOf(lines[1..], name)
      case Setting(k, v) => [Entry(section, k, v)] + EntriesOf(lines[1..], section)
  }

  /** The value of the first entry for a section and a key, or the empty string. */
  function FirstMatch(es: seq<Entry>, section: string, key: string): string {
    if es == [] then ""
    else if es[0].section == section && es[0].key == key then es[0].value
    else FirstMatch(es[1..], section, key)
  }

  function LookUp(lines: seq<string>, i: nat, current: string, section: string, key: string): string
    requires i <= |lines|
  {
    FirstMatch(EntriesOf(lines[i..], current), section, key)
  }

  lemma LookUpStarts(lines: seq<string>, current: string, section: string, key: string)
    ensures LookUp(lines, 0, current, section, key) == FirstMatch(EntriesOf(lines, current), section, key)
    ensures LookUp(lines, |lines|, current, section, key) == ""
  {
    assert lines[0..] == lines && lines[|lines|..] == [];
  }

  lemma LookUpStep(lines: seq<string>, i: nat, current: string, section: string, key: string)
    requires i < |lines|
    ensures LookUp(lines, i, current, section, key) ==
      match ReadLine(lines[i])
      case Nothing => LookUp(lines, i + 1, current, section, key)
      case Section(name) => LookUp(lines, i + 1, name, section, key)
      case Setting(k, v) => if current == section && k == key then v else LookUp(lines, i + 1, current, section, key)
  {
    hide ReadLine;
    assert lines[i..][0] == lines[i] && lines[i..][1..] == lines[i + 1..];
    match ReadLine(lines[i])
    case Setting(k, v) =>
      var rest := EntriesOf(lines[i + 1..], current);
      assert ([Entry(current, k, v)] + rest)[1..] == rest;
    case _ =>
  }

  /** A file that cannot be opened reads as an empty one. */
  method GetConfigValue(isOpen: bool, text: string, section: string, key: string) returns (value: string)
    ensures value == FirstMatch(EntriesOf(if isOpen then Lines(text) else [], ""), section, key)
  {
    if !isOpen {
      return "";
    }
    var lines := Lines(text);
    var currentSection := "";
    var i := 0;
    hide LookUp, Trim, IndexOf, Lines;
    LookUpStarts(lines, "", section, key);
    while i < |lines|
      invariant 0 <= i <= |lines|
      invariant LookUp(lines, i, currentSection, section, key) == LookUp(lines, 0, "", section, key)
    {
      var raw := lines[i];
      LookUpStep(lines, i, currentSection, section, key);
      i := i + 1;
      var line := Trim(raw);
      if line == "" || line[0] == ';' || line[0] == '#' {
        continue;
      }
      if line[0] == '[' && line[|line| - 1] == ']' {
        currentSection := line[1..|line| - 1];
        continue;
      }
      var pos := IndexOf(line, '=');
      if pos != |line| {
        var k := Trim(line[..pos]);
        var v := Trim(line[pos + 1..]);
        if currentSection == section && k == key {
          return v;
        }
      }
    }
    LookUpStarts(lines, currentSection, section, key);
    return "";
  }

  // ---- Writing a file -----------------------------------------------------------------------

  /** What somebody may put on a line, with padding anywhere. */
  datatype Item =
    | Empty(pad: string)
    | Comment(pad: string, mark: char, text: string)
    | Heading(pad: string, name: string, tail: string)
    | Assignment(pad: string, key: string, pad1: string, pad2: string, value: string, tail: string)

  predicate Padding(s: string) {
    AllBlank(s) && '\n' !in s
  }

  predicate ItemOk(item: Item) {
    match item
    case Empty(pad) => Padding(pad)
    case Comment(pad, mark, text) => Padding(pad) && (mark == ';' || mark == '#') && '\n' !in text
    case Heading(pad, name, tail) => Padding(pad) && Padding(tail) && '\n' !in name
    case Assignment(pad, key, pad1, pad2, value, tail) =>
      && Padding(pad) && Padding(pad1) && Padding(pad2) && Padding(tail)
      && Trimmed(key) && Trimmed(value) && '\n' !in key && '\n' !in value && '=' !in key
      && (key != "" ==> key[0] != ';' && key[0] != '#' && key[0] != '[')
  }

  function Show(item: Item): string {
    match item
    case Empty(pad) => pad
    case Comment(pad, mark, text) => pad + [mark] + text
    case Heading(pad, name, tail) => pad + ("[" + name + "]") + tail
    case Assignment(pad, key, pad1, pad2, value, tail) => (pad + key + pad1) + ['='] + (pad2 + value + tail)
  }

  function Meaning(item: Item): Line {
    match item
    case Empty(_) => Nothing
    case Comment(_, _, _) => Nothing
    case Heading(_, name, _) => Section(name)
    case Assignment(_, key, _, _, value, _) => Setting(key, value)
  }

  lemma TrimDropsFront(a: string, s: string)
    requires AllBlank(a)
    ensures Trim(a + s) == Trim(s)
  {
    hide Trim, AllBlank;
    var p, q := TrimSound(s);
    assert a + (p + Trim(s) + q) == (a + p) + Trim(s) + q;
    BlankConcat(a, p);
    TrimPadded(a + p, Trim(s), q);
  }

  lemma TrimDropsBack(s: string, b: string)
    requires AllBlank(b)
    ensures Trim(s + b) == Trim(s)
  {
    hide Trim, AllBlank;
    var p, q := TrimSound(s);
    assert (p + Trim(s) + q) + b == p + Trim(s) + (q + b);
    BlankConcat(q, b);
    TrimPadded(p, Trim(s), q + b);
  }

  /** Trimming a text with something visible in the middle trims its two halves on the outside only. */
  lemma TrimAround(x: string, ch: char, y: string) returns (x': string, y': string)
    requires !Blank(ch)
    ensures Trim(x + [ch] + y) == x' + [ch] + y'
    ensures Trim(x') == Trim(x) && Trim(y') == Trim(y)
    ensures forall i | 0 <= i < |x'| :: x'[i] in x
    ensures x' != "" ==> !Blank(x'[0])
  {
    hide Trim, AllBlank;
    var s := x + [ch] + y;
    var first, end := TrimSpan(s, |x|);
    x', y' := x[first..], y[..end - |x| - 1];
    assert s[first..end] == x' + [ch] + y';
    assert s[..first] == x[..first] && s[end..] == y[end - |x| - 1..];
    TrimDropsFront(x[..first], x');
    assert x == x[..first] + x';
    TrimDropsBack(y', y[end - |x| - 1..]);
    assert y == y' + y[end - |x| - 1..];
  }

  lemma FirstOfTrim(s: string)
    requires s != "" && !Blank(s[0])
    ensures Trim(s) != "" && Trim(s)[0] == s[0]
  {
  }

  lemma BlankTrims(s: string)
    requires AllBlank(s)
    ensures Trim(s) == ""
  {
  }

  lemma SettingReadsBack(item: Item)
    requires item.Assignment? && ItemOk(item)
    ensures ReadLine(Show(item)) == Meaning(item)
  {
    hide Trim, AllBlank;
    var x, y := item.pad + item.key + item.pad1, item.pad2 + item.value + item.tail;
    TrimPadded(item.pad, item.key, item.pad1);
    TrimPadded(item.pad2, item.value, item.tail);
    var x', y' := TrimAround(x, '=', y);
    NoneWithin('=', item.pad, item.key, item.pad1);
    SettingLine(x', y', item.key, item.value);
  }

  lemma NoneWithin(ch: char, a: string, t: string, b: string)
    requires AllBlank(a) && AllBlank(b) && !Blank(ch) && ch !in t
    ensures ch !in a + t + b
  {
  }

  /** The reading of a trimmed line with its first '=' between two halves. */
  lemma SettingLine(x: string, y: string, key: string, value: string)
    requires Trim(x) == key && Trim(y) == value
    requires (forall i | 0 <= i < |x| :: x[i] != '=') && (x != "" ==> !Blank(x[0]))
    requires key != "" ==> key[0] != ';' && key[0] != '#' && key[0] != '['
    ensures forall raw: string | Trim(raw) == x + ['='] + y :: ReadLine(raw) == Setting(key, value)
  {
    hide Trim;
    var line := x + ['='] + y;
    if x != "" {
      FirstOfTrim(x);
      assert line[0] == key[0];
    }
    IndexOfSplit(x, '=', y);
    assert line[..|x|] == x && line[|x| + 1..] == y;
  }

  lemma CommentReadsBack(item: Item)
    requires item.Comment? && ItemOk(item)
    ensures ReadLine(Show(item)) == Nothing
  {
    hide Trim;
    var x', y' := TrimAround(item.pad, item.mark, item.text);
    assert x' == "";
  }

  /** Every line is read as what it was written to mean. */
  lemma ReadsBack(item: Item)
    requires ItemOk(item)
    ensures ReadLine(Show(item)) == Meaning(item)
  {
    hide ReadLine;
    match item
    case Empty(pad) => EmptyReadsBack(pad);
    case Comment(_, _, _) => CommentReadsBack(item);
    case Heading(pad, name, tail) => HeadingReadsBack(pad, name, tail);
    case Assignment(_, _, _, _, _, _) => SettingReadsBack(item);
  }

  lemma EmptyReadsBack(pad: string)
    requires Padding(pad)
    ensures ReadLine(pad) == Nothing
  {
    BlankTrims(pad);
  }

  lemma HeadingReadsBack(pad: string, name: string, tail: string)
    requires Padding(pad) && Padding(tail)
    ensures ReadLine(pad + ("[" + name + "]") + tail) == Section(name)
  {
    var line := "[" + name + "]";
    TrimPadded(pad, line, tail);
    assert line[1..|line| - 1] == name;
  }

  function Print(items: seq<Item>): string {
    if items == [] then "" else Show(items[0]) + "\n" + Print(items[1..])
  }

  /** The settings a list of items states, each under the heading it follows; a heading may be reopened. */
  function Said(items: seq<Item>, section: string): seq<Entry> {
    if items == [] then []
    else match items[0]
      case Heading(_, name, _) => Said(items[1..], name)
      case Assignment(_, key, _, _, value, _) => [Entry(section, key, value)] + Said(items[1..], section)
      case _ => Said(items[1..], section)
  }

  predicate AllOk(items: seq<Item>) {
    forall i | 0 <= i < |items| :: ItemOk(items[i])
  }

  lemma ShownOnOneLine(item: Item)
    requires ItemOk(item)
    ensures '\n' !in Show(item)
  {
  }

  /** A printed configuration reads back as the settings it states, so every lookup in it finds the first statement of
      the key in the section, reopened sections included. */
  lemma {:induction false} ConfigRoundTrip(items: seq<Item>, section: string)
    requires AllOk(items)
    ensures EntriesOf(Lines(Print(items)), section) == Said(items, section)
  {
    hide ItemOk, Show, ReadLine;
    if items != [] {
      var item, more := items[0], items[1..];
      ShownOnOneLine(item);
      ReadsBack(item);
      LinesCons(Show(item), Print(more));
      var lines := Lines(Print(items));
      assert lines[0] == Show(item) && lines[1..] == Lines(Print(more));
      match item
      case Heading(_, name, _) => ConfigRoundTrip(more, name);
      case _ => ConfigRoundTrip(more, section);
    }
  }

  /** `text` is the printed configuration, possibly without the terminator of its last line. */
  predicate PrintedAs(text: string, items: seq<Item>) {
    text == Print(items) || text + "\n" == Print(items)
  }

  /** What a file says does not depend on whether its last line is terminated. */
  lemma {:induction false} EntriesUnterminated(text: string, section: string)
    ensures EntriesOf(Lines(text + "\n"), section) == EntriesOf(Lines(text), section)
    decreases |text|
  {
    hide Lines, ReadLine;
    if text == "" {
      LinesCons("", "");
      NoLines();
      assert "" + "\n" + "" == "\n" == text + "\n";
      assert [""][1..] == [];
      EmptyReadsBack("");
    } else if text[|text| - 1] != '\n' {
      LastTerminator(text);
    } else {
      var n := IndexOf(text, '\n');
      var line, rest := text[..n], text[n + 1..];
      assert text == line + "\n" + rest && text + "\n" == line + "\n" + (rest + "\n");
      LinesCons(line, rest);
      LinesCons(line, rest + "\n");
      assert ([line] + Lines(rest))[1..] == Lines(rest) && ([line] + Lines(rest + "\n"))[1..] == Lines(rest + "\n");
      match ReadLine(line)
      case Section(name) => EntriesUnterminated(rest, name);
      case _ => EntriesUnterminated(rest, section);
    }
  }

  /** A configuration reads back as the settings it states, whether or not its last line is terminated. */
  lemma PrintedReadsBack(text: string, items: seq<Item>, section: string)
    requires AllOk(items) && PrintedAs(text, items)
    ensures EntriesOf(Lines(text), section) == Said(items, section)
  {
    hide Lines, EntriesOf, Said, Print;
    ConfigRoundTrip(items, section);
    if text != Print(items) {
      EntriesUnterminated(text, section);
    }
  }

  // ---- What a lookup in a printed file finds ------------------------------------------------

  /** The section in force before item `i`: the name in the nearest heading above it. */
  function SectionAt(items: seq<Item>, section: string, i: nat): string
    requires i <= |items|
  {
    if i == 0 then section
    else match items[i - 1]
      case Heading(_, name, _) => name
      case _ => SectionAt(items, section, i - 1)
  }

  /** Item `i` states `key` in section `wanted`. */
  predicate States(items: seq<Item>, section: string, i: nat, wanted: string, key: string)
    requires i < |items|
  {
    items[i].Assignment? && items[i].key == key && SectionAt(items, section, i) == wanted
  }

  function NextSection(item: Item, section: string): string {
    if item.Heading? then item.name else section
  }

  lemma {:induction false} SectionAtTail(items: seq<Item>, section: string, i: nat)
    requires i < |items|
    ensures SectionAt(items, section, i + 1) == SectionAt(items[1..], NextSection(items[0], section), i)
  {
    if i > 0 {
      SectionAtTail(items, section, i - 1);
    } else {
      assert SectionAt(items, section, 0) == section;
    }
  }

  lemma StatesTail(items: seq<Item>, section: string, wanted: string, key: string)
    requires items != []
    ensures forall j | 0 <= j < |items| - 1 ::
      States(items[1..], NextSection(items[0], section), j, wanted, key) <==> States(items, section, j + 1, wanted, key)
  {
    forall j | 0 <= j < |items| - 1
      ensures States(items[1..], NextSection(items[0], section), j, wanted, key) <==> States(items, section, j + 1, wanted, key)
    {
      SectionAtTail(items, section, j);
    }
  }

  lemma SaidStep(items: seq<Item>, section: string, wanted: string, key: string)
    requires items != []
    ensures FirstMatch(Said(items, section), wanted, key) ==
      if States(items, section, 0, wanted, key) then items[0].value
      else FirstMatch(Said(items[1..], NextSection(items[0], section)), wanted, key)
  {
    var rest := Said(items[1..], section);
    match items[0]
    case Assignment(_, k, _, _, v, _) => assert ([Entry(section, k, v)] + rest)[1..] == rest;
    case _ =>
  }

  /** A lookup finds the value of the first item that states the key in the section. */
  lemma {:induction false} FirstStated(items: seq<Item>, section: string, wanted: string, key: string, i: nat)
    requires i < |items| && States(items, section, i, wanted, key)
    requires forall j | 0 <= j < i :: !States(items, section, j, wanted, key)
    ensures FirstMatch(Said(items, section), wanted, key) == items[i].value
    decreases i
  {
    hide Said, FirstMatch;
    SaidStep(items, section, wanted, key);
    if i > 0 {
      hide States;
      StatesTail(items, section, wanted, key);
      FirstStated(items[1..], NextSection(items[0], section), wanted, key, i - 1);
    }
  }

  /** A lookup of what no item states finds the empty string. */
  lemma {:induction false} NeverStated(items: seq<Item>, section: string, wanted: string, key: string)
    requires forall j | 0 <= j < |items| :: !States(items, section, j, wanted, key)
    ensures FirstMatch(Said(items, section), wanted, key) == ""
  {
    if items != [] {
      hide Said, FirstMatch, States;
      SaidStep(items, section, wanted, key);
      StatesTail(items, section, wanted, key);
      NeverStated(items[1..], NextSection(items[0], section), wanted, key);
    }
  }

  /** What `get_config_value` answers about a file printed from `items`, its last line terminated or not: the value of
      the first assignment of the key under a heading of that name, however padded, commented, or spread over reopened
      sections the file is. */
  lemma LookUpRecovered(text: string, items: seq<Item>, wanted: string, key: string, i: nat)
    requires AllOk(items) && PrintedAs(text, items) && i < |items| && States(items, "", i, wanted, key)
    requires forall j | 0 <= j < i :: !States(items, "", j, wanted, key)
    ensures FirstMatch(EntriesOf(Lines(text), ""), wanted, key) == items[i].value
  {
    hide Lines, EntriesOf, Print, Said, FirstMatch, PrintedAs;
    PrintedReadsBack(text, items, "");
    FirstStated(items, "", wanted, key, i);
  }

  /** And the empty string for a key nobody assigned in that section. */
  lemma LookUpMissing(text: string, items: seq<Item>, wanted: string, key: string)
    requires AllOk(items) && PrintedAs(text, items)
    requires forall j | 0 <= j < |items| :: !States(items, "", j, wanted, key)
    ensures FirstMatch(EntriesOf(Lines(text), ""), wanted, key) == ""
  {
    hide Lines, EntriesOf, Print, Said, FirstMatch, PrintedAs;
    PrintedReadsBack(text, items, "");
    NeverStated(items, "", wanted, key);
  }
}
