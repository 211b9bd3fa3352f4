/**
 A maintenance as an iCalendar file, RFC 5545: what is written, and a reader
 of the standard that takes it back. A text is its Unicode characters.
 */
module ICalendar {
  import opened Prelude

  const MAX_LINE_OCTETS := 75
  const CRLF := "\r\n"
  const FOLD := "\r\n "

  /** No line break of any kind. */
  predicate Clean(text: string) {
    forall i | 0 <= i < |text| :: text[i] != '\r' && text[i] != '\n'
  }

  /** A formatted date, or the version number: no line break nor escape in it. */
  type Word = s: string | Clean(s) && '\\' !in s

  datatype CalendarEntry = CalendarEntry(
    uid: string,
    title: string,
    start: Word,
    end: Option<Word>,
    stamp: Word,
    description: string)

  // ----- writing

  /** How many characters are read at once: a CRLF is one line break. */
  function Taken(value: string): (n: nat)
    requires value != []
    ensures 1 <= n <= |value|
  {
    if value[0] == '\r' && |value| > 1 && value[1] == '\n' then 2 else 1
  }

  function EscapeChar(c: char): string {
    match c
    case '\\' => "\\\\"
    case ';' => "\\;"
    case ',' => "\\,"
    case '\r' => "\\n"
    case '\n' => "\\n"
    case other => [other]
  }

  /** TEXT escaping of section 3.3.11. */
  function Escape(value: string): string {
    if value == [] then [] else EscapeChar(value[0]) + Escape(value[Taken(value)..])
  }

  /** The octets of a character in UTF-8. */
  function OctetsOf(c: char): int {
    if c as int < 0x80 then 1 else if c as int < 0x800 then 2 else if c as int < 0x1_0000 then 3 else 4
  }

  function Octets(text: string): (n: nat)
    ensures n >= |text|
  {
    if text == [] then 0 else OctetsOf(text[0]) + Octets(text[1..])
  }

  /** What is never cut: a character, or an escape and what it escapes. */
  function Token(line: string): (token: string)
    requires line != []
    ensures 1 <= |token| <= |line| && token == line[..|token|]
  {
    if line[0] == '\\' && |line| > 1 then line[..2] else line[..1]
  }

  /** Folds the rest of a line after `octets` on the current physical line. */
  function FoldFrom(line: string, octets: nat): string
    decreases |line|
  {
    if line == [] then CRLF
    else
      var token := Token(line);
      var rest := line[|token|..];
      if octets + Octets(token) > MAX_LINE_OCTETS
      then FOLD + token + FoldFrom(rest, 1 + Octets(token))
      else token + FoldFrom(rest, octets + Octets(token))
  }

  function FoldAll(lines: seq<string>): string {
    if lines == [] then [] else FoldFrom(lines[0], 0) + FoldAll(lines[1..])
  }

  datatype Property = Property(name: string, value: string)

  /** The properties of the file, in order. */
  function Properties(entry: CalendarEntry, version: Word): seq<Property> {
    [Property("BEGIN", "VCALENDAR"),
     Property("VERSION", "2.0"),
     Property("PRODID", "-//Statup//Statup " + version + "//EN"),
     Property("CALSCALE", "GREGORIAN"),
     Property("METHOD", "PUBLISH"),
     Property("BEGIN", "VEVENT"),
     Property("UID", Escape(entry.uid)),
     Property("DTSTAMP", entry.stamp),
     Property("DTSTART", entry.start)]
    + (if entry.end.Some? then [Property("DTEND", entry.end.value)] else [])
    + [Property("SUMMARY", Escape(entry.title)),
       Property("DESCRIPTION", Escape(entry.description)),
       Property("END", "VEVENT"),
       Property("END", "VCALENDAR")]
  }

  function Line(name: string, value: string): string {
    name + ":" + value
  }

  /** The content lines of the file, before they are folded. */
  function ContentLines(entry: CalendarEntry, version: Word): (lines: seq<string>) {
    var properties := Properties(entry, version);
    seq(|properties|, i requires 0 <= i < |properties| => Line(properties[i].name, properties[i].value))
  }

  lemma EscapeStep(value: string, i: nat)
    requires i < |value|
    ensures Escape(value[i..]) == EscapeChar(value[i]) + Escape(value[i + Taken(value[i..])..])
  {}

  lemma EscapeNothing()
    ensures Escape([]) == []
  {}

  method EscapeText(value: string) returns (escaped: string)
    ensures escaped == Escape(value)
  {
    hide Escape;
    escaped := [];
    var i := 0;
    assert value[0..] == value;
    while i < |value|
      invariant i <= |value|
      invariant Escape(value) == escaped + Escape(value[i..])
    {
      EscapeStep(value, i);
      ghost var rest := value[i..];
      var c := value[i];
      i := i + 1;
      var piece := [c];
      match c {
        case '\\' => piece := "\\\\";
        case ';' => piece := "\\;";
        case ',' => piece := "\\,";
        case '\r' =>
          if i < |value| && value[i] == '\n' {
            i := i + 1;
          }
          piece := "\\n";
        case '\n' => piece := "\\n";
        case _ =>
      }
      Piece(rest, piece);
      assert escaped + (piece + Escape(value[i..])) == (escaped + piece) + Escape(value[i..]);
      escaped := escaped + piece;
    }
    EscapeNothing();
    assert value[i..] == [] && escaped + [] == escaped;
  }

  lemma FoldStep(line: string, i: nat, octets: nat)
    requires i < |line|
    ensures var token := Token(line[i..]);
      FoldFrom(line[i..], octets)
        == (if octets + Octets(token) > MAX_LINE_OCTETS then FOLD else [])
           + token + FoldFrom(line[i + |token|..], Placed(octets, token))
  {
    hide Octets;
    var token := Token(line[i..]);
    assert line[i..][|token|..] == line[i + |token|..];
    assert [] + token == token;
  }

  /** Ends each physical line with CRLF, none longer than 75 octets. */
  method FoldLine(line: string) returns (folded: string)
    ensures folded == FoldFrom(line, 0)
  {
    hide Octets, FoldFrom, Token;
    folded := [];
    var octetsInLine: nat := 0;
    var i := 0;
    assert line[0..] == line;
    while i < |line|
      invariant i <= |line|
      invariant FoldFrom(line, 0) == folded + FoldFrom(line[i..], octetsInLine)
    {
      FoldStep(line, i, octetsInLine);
      TokenIs(line, i);
      ghost var begun, was := octetsInLine, folded;
      var c := line[i];
      i := i + 1;
      var taken := [c];
      if c == '\\' && i < |line| {
        taken := taken + [line[i]];
        i := i + 1;
      }
      var octets := Octets(taken);
      if octetsInLine + octets > MAX_LINE_OCTETS {
        folded := folded + FOLD;
        octetsInLine := 1;
      }
      folded := folded + taken;
      octetsInLine := octetsInLine + octets;
      Regroup(was, if begun + octets > MAX_LINE_OCTETS then FOLD else [], taken, FoldFrom(line[i..], octetsInLine));
    }
    FoldNothing(octetsInLine);
    assert line[i..] == [];
    folded := folded + CRLF;
  }

  lemma Regroup(a: string, b: string, c: string, d: string)
    ensures a + (b + c + d) == a + b + c + d
    ensures b == [] ==> a + (b + c + d) == a + c + d
  {}

  lemma TokenIs(line: string, i: nat)
    requires i < |line|
    ensures Token(line[i..]) == if line[i] == '\\' && i + 1 < |line| then [line[i]] + [line[i + 1]] else [line[i]]
  {}

  lemma FoldNothing(octets: nat)
    ensures FoldFrom([], octets) == CRLF
  {}

  method Ics(entry: CalendarEntry, version: Word) returns (file: string)
    ensures file == FoldAll(ContentLines(entry, version))
  {
    hide Line, FoldFrom;
    var uid := EscapeText(entry.uid);
    var title := EscapeText(entry.title);
    var description := EscapeText(entry.description);
    var lines := [
      Line("BEGIN", "VCALENDAR"),
      Line("VERSION", "2.0"),
      Line("PRODID", "-//Statup//Statup " + version + "//EN"),
      Line("CALSCALE", "GREGORIAN"),
      Line("METHOD", "PUBLISH"),
      Line("BEGIN", "VEVENT"),
      Line("UID", uid),
      Line("DTSTAMP", entry.stamp),
      Line("DTSTART", entry.start)];
    if entry.end.Some? {
      lines := lines + [Line("DTEND", entry.end.value)];
    }
    lines := lines + [Line("SUMMARY", title)];
    lines := lines + [Line("DESCRIPTION", description)];
    lines := lines + [Line("END", "VEVENT")];
    lines := lines + [Line("END", "VCALENDAR")];
    assert lines == ContentLines(entry, version);
    file := FoldLines(lines);
  }

  method FoldLines(lines: seq<string>) returns (file: string)
    ensures file == FoldAll(lines)
  {
    hide FoldFrom;
    file := [];
    assert lines[0..] == lines;
    for i := 0 to |lines|
      invariant FoldAll(lines) == file + FoldAll(lines[i..])
    {
      assert lines[i..][0] == lines[i] && lines[i..][1..] == lines[i + 1..];
      var folded := FoldLine(lines[i]);
      assert file + (folded + FoldAll(lines[i + 1..])) == (file + folded) + FoldAll(lines[i + 1..]);
      file := file + folded;
    }
    assert lines[|lines|..] == [] && file + [] == file;
  }

  lemma Piece(rest: string, piece: string)
    requires rest != [] && piece == (if rest[0] == '\\' then "\\\\" else if rest[0] == ';' then "\\;"
      else if rest[0] == ',' then "\\," else if rest[0] == '\r' || rest[0] == '\n' then "\\n" else [rest[0]])
    ensures piece == EscapeChar(rest[0])
  {}

  // ----- reading

  predicate IsFold(text: string) {
    |text| >= 3 && text[0] == '\r' && text[1] == '\n' && (text[2] == ' ' || text[2] == '\t')
  }

  /** Section 3.1: a line break followed by a space or a tab is removed. */
  function Unfold(file: string): string {
    if file == [] then []
    else if IsFold(file) then Unfold(file[3..])
    else [file[0]] + Unfold(file[1..])
  }

  predicate IsBreak(text: string) {
    |text| >= 2 && text[0] == '\r' && text[1] == '\n'
  }

  /** The lines, each ended by CRLF. */
  function Split(text: string): seq<string> {
    if text == [] then []
    else if IsBreak(text) then [[]] + Split(text[2..])
    else
      var rest := Split(text[1..]);
      if rest == [] then [[text[0]]] else [[text[0]] + rest[0]] + rest[1..]
  }

  /** Section 3.3.11: `\n` and `\N` are a line break, another escape is what it
      escapes. */
  function Unescape(text: string): string {
    if text == [] then []
    else if text[0] == '\\' && |text| > 1 then
      [if text[1] == 'n' || text[1] == 'N' then '\n' else text[1]] + Unescape(text[2..])
    else [text[0]] + Unescape(text[1..])
  }

  /** The text with each CRLF and lone CR read as LF. */
  function Normal(value: string): string {
    if value == [] then []
    else if |value| > 1 && value[0] == '\r' && value[1] == '\n' then "\n" + Normal(value[2..])
    else [if value[0] == '\r' then '\n' else value[0]] + Normal(value[1..])
  }

  /** The value of the first line with this name. */
  function ValueIn(lines: seq<string>, name: string): Option<string> {
    if lines == [] then None
    else if name + ":" <= lines[0] then Some(lines[0][|name| + 1..])
    else ValueIn(lines[1..], name)
  }

  /** A text property of the file, as a reader takes it. */
  function ReadText(file: string, name: string): Option<string> {
    var value := ValueIn(Split(Unfold(file)), name);
    if value.Some? then Some(Unescape(value.value)) else None
  }

  // ----- escaping reads back

  /** A character that separates values stands outside any escape. */
  predicate HasBareSeparator(text: string) {
    text != []
    && (if text[0] == '\\' && |text| > 1 then HasBareSeparator(text[2..])
        else text[0] == ';' || text[0] == ',' || HasBareSeparator(text[1..]))
  }

  lemma UnescapeChar(c: char, rest: string)
    ensures Unescape(EscapeChar(c) + rest) == [if c == '\r' then '\n' else c] + Unescape(rest)
    ensures HasBareSeparator(EscapeChar(c) + rest) == HasBareSeparator(rest)
    ensures Dangling(EscapeChar(c) + rest) == Dangling(rest)
    ensures Clean(rest) ==> Clean(EscapeChar(c) + rest)
  {
    var head := EscapeChar(c);
    assert |head| == 2 ==> (head + rest)[2..] == rest;
    assert |head| == 1 ==> (head + rest)[1..] == rest;
  }

  /** Escaping reads back, and leaves no line break, no half an escape, and no
      bare `;` or `,`. */
  lemma {:induction false} EscapeReadsBack(value: string)
    ensures Unescape(Escape(value)) == Normal(value)
    ensures Clean(Escape(value)) && !Dangling(Escape(value)) && !HasBareSeparator(Escape(value))
  {
    if value != [] {
      EscapeReadsBack(value[Taken(value)..]);
      UnescapeChar(value[0], Escape(value[Taken(value)..]));
    }
  }

  // ----- folding reads back

  /** Unfolding passes over what holds no line break. */
  lemma {:induction false} UnfoldClean(text: string, rest: string)
    requires Clean(text)
    ensures Unfold(text + rest) == text + Unfold(rest)
  {
    if text == [] {
      assert text + rest == rest;
    } else {
      assert (text + rest)[0] == text[0];
      assert (text + rest)[1..] == text[1..] + rest;
      UnfoldClean(text[1..], rest);
    }
  }

  predicate StartsLine(text: string) {
    text == [] || (text[0] != ' ' && text[0] != '\t')
  }

  lemma UnfoldBreak(rest: string)
    requires StartsLine(rest)
    ensures Unfold(CRLF + rest) == CRLF + Unfold(rest)
  {}

  /** The octets on the physical line once `token` is written. */
  function Placed(octets: nat, token: string): nat {
    if octets + Octets(token) > MAX_LINE_OCTETS then 1 + Octets(token) else octets + Octets(token)
  }

  lemma {:induction false} UnfoldFolded(line: string, octets: nat, rest: string)
    requires Clean(line) && StartsLine(rest)
    ensures Unfold(FoldFrom(line, octets) + rest) == line + CRLF + Unfold(rest)
    decreases |line|
  {
    hide Unfold, Octets;
    if line == [] {
      UnfoldBreak(rest);
      assert [] + CRLF + Unfold(rest) == CRLF + Unfold(rest);
    } else {
      var token := Token(line);
      var tail := line[|token|..];
      var after := FoldFrom(tail, Placed(octets, token));
      assert line == token + tail;
      UnfoldFolded(tail, Placed(octets, token), rest);
      UnfoldClean(token, after + rest);
      UnfoldFold(token + (after + rest));
      assert FOLD + token + after + rest == FOLD + (token + (after + rest));
      assert token + after + rest == token + (after + rest);
      assert token + (tail + CRLF + Unfold(rest)) == line + CRLF + Unfold(rest);
    }
  }

  lemma UnfoldFold(rest: string)
    ensures Unfold(FOLD + rest) == Unfold(rest)
  {}

  lemma {:induction false} SplitLine(line: string, rest: string)
    requires Clean(line)
    ensures Split(line + CRLF + rest) == [line] + Split(rest)
  {
    var text := line + CRLF + rest;
    if line == [] {
      assert text == CRLF + rest && text[2..] == rest;
    } else {
      assert text[0] == line[0];
      assert text[1..] == line[1..] + CRLF + rest;
      SplitLine(line[1..], rest);
      assert [line[0]] + line[1..] == line;
    }
  }

  ghost predicate AreContentLines(lines: seq<string>) {
    forall i | 0 <= i < |lines| :: lines[i] != [] && Clean(lines[i]) && StartsLine(lines[i])
  }

  lemma {:induction false} FoldStarts(line: string)
    requires line != []
    ensures FoldFrom(line, 0) != [] && FoldFrom(line, 0)[0] == line[0]
  {
    assert Octets(Token(line)) <= 8 by { TokenOctets(line); }
  }

  lemma TokenOctets(line: string)
    requires line != []
    ensures 1 <= Octets(Token(line)) <= 8
  {
    var token := Token(line);
    assert token[1..] == [] || token[1..][1..] == [];
    assert Octets(token[1..]) <= 4;
  }

  /** Unfolding then splitting gives back exactly the lines written. */
  lemma {:induction false} FoldingReadsBack(lines: seq<string>)
    requires AreContentLines(lines)
    ensures Split(Unfold(FoldAll(lines))) == lines
    ensures StartsLine(FoldAll(lines))
  {
    hide FoldFrom, Unfold, Split;
    if lines == [] {
      NothingToRead();
    } else {
      FoldingReadsBack(lines[1..]);
      FoldStarts(lines[0]);
      UnfoldFolded(lines[0], 0, FoldAll(lines[1..]));
      SplitLine(lines[0], Unfold(FoldAll(lines[1..])));
    }
  }

  lemma NothingToRead()
    ensures Split(Unfold([])) == []
  {}

  /** A property name: capital letters only. */
  predicate IsName(name: string) {
    name != [] && forall i | 0 <= i < |name| :: 'A' <= name[i] <= 'Z'
  }

  /** What a property is written from: a name, and no line break nor half an
      escape. */
  predicate IsProperty(property: Property) {
    IsName(property.name) && Clean(property.value) && !Dangling(property.value)
  }

  lemma {:induction false} NoEscapeIsWhole(line: string)
    requires '\\' !in line
    ensures !Dangling(line)
  {
    if line != [] {
      NoEscapeIsWhole(line[1..]);
    }
  }

  lemma Plain(name: string, value: string)
    requires IsName(name) && Clean(value) && '\\' !in value
    ensures IsProperty(Property(name, value))
  {
    NoEscapeIsWhole(value);
  }

  lemma Escaped(name: string, text: string)
    requires IsName(name)
    ensures IsProperty(Property(name, Escape(text)))
  {
    EscapeReadsBack(text);
  }

  lemma Constants(version: Word)
    ensures IsProperty(Property("BEGIN", "VCALENDAR")) && IsProperty(Property("VERSION", "2.0"))
    ensures IsProperty(Property("PRODID", "-//Statup//Statup " + version + "//EN"))
    ensures IsProperty(Property("CALSCALE", "GREGORIAN")) && IsProperty(Property("METHOD", "PUBLISH"))
    ensures IsProperty(Property("BEGIN", "VEVENT")) && IsProperty(Property("END", "VEVENT"))
    ensures IsProperty(Property("END", "VCALENDAR"))
  {
    hide IsProperty;
    Plain("BEGIN", "VCALENDAR");
    Plain("VERSION", "2.0");
    Plain("PRODID", "-//Statup//Statup " + version + "//EN");
    Plain("CALSCALE", "GREGORIAN");
    Plain("METHOD", "PUBLISH");
    Plain("BEGIN", "VEVENT");
    Plain("END", "VEVENT");
    Plain("END", "VCALENDAR");
  }

  lemma PropertiesAre(entry: CalendarEntry, version: Word)
    ensures forall i | 0 <= i < |Properties(entry, version)| :: IsProperty(Properties(entry, version)[i])
  {
    hide IsProperty, Escape;
    Constants(version);
    Escaped("UID", entry.uid);
    Plain("DTSTAMP", entry.stamp);
    Plain("DTSTART", entry.start);
    if entry.end.Some? {
      Plain("DTEND", entry.end.value);
    }
    Escaped("SUMMARY", entry.title);
    Escaped("DESCRIPTION", entry.description);
  }

  lemma LineIsWhole(property: Property)
    requires IsProperty(property)
    ensures var line := Line(property.name, property.value);
      line != [] && Clean(line) && StartsLine(line) && !Dangling(line)
  {
    hide Dangling;
    var head := property.name + ":";
    NoEscapeIsWhole(head);
    DanglingEnd(head, property.value);
  }

  /** Each content line is whole: no line break and no half escape in it. */
  lemma LinesAreWhole(entry: CalendarEntry, version: Word)
    ensures AreContentLines(ContentLines(entry, version))
    ensures forall i | 0 <= i < |ContentLines(entry, version)| :: !Dangling(ContentLines(entry, version)[i])
  {
    hide Properties, Line, Dangling, Clean, StartsLine;
    PropertiesAre(entry, version);
    var properties := Properties(entry, version);
    forall i | 0 <= i < |properties|
      ensures var line := Line(properties[i].name, properties[i].value);
        line != [] && Clean(line) && StartsLine(line) && !Dangling(line)
    {
      LineIsWhole(properties[i]);
    }
  }

  /** A line starts with the name asked for exactly when it is its own. */
  lemma NameIsOwn(property: Property, name: string)
    requires IsName(name) && IsName(property.name)
    ensures name + ":" <= Line(property.name, property.value) <==> name == property.name
    ensures name == property.name ==> Line(property.name, property.value)[|name| + 1..] == property.value
  {
    var line := Line(property.name, property.value);
    if name + ":" <= line {
      assert line[|name|] == (name + ":")[|name|] == ':';
      assert line[|property.name|] == ':';
      assert forall k | 0 <= k < |name| :: line[k] == (name + ":")[k] == name[k];
    }
  }

  lemma {:induction false} ValueAt(properties: seq<Property>, lines: seq<string>, name: string, i: nat)
    requires i < |properties| == |lines| && IsName(name) && properties[i].name == name
    requires forall k | 0 <= k < |properties| :: IsName(properties[k].name)
    requires forall k | 0 <= k < |properties| :: lines[k] == Line(properties[k].name, properties[k].value)
    requires forall k | 0 <= k < i :: properties[k].name != name
    ensures ValueIn(lines, name) == Some(properties[i].value)
  {
    hide Line, IsName;
    NameIsOwn(properties[0], name);
    if i > 0 {
      ValueAt(properties[1..], lines[1..], name, i - 1);
    }
  }

  /** The whole file reads back: exactly the lines intended, whatever the texts
      hold, each text and date as it was, and an end exactly when there is one. */
  lemma FileReadsBack(entry: CalendarEntry, version: Word)
    ensures var file := FoldAll(ContentLines(entry, version));
      && Split(Unfold(file)) == ContentLines(entry, version)
      && ReadText(file, "UID") == Some(Normal(entry.uid))
      && ReadText(file, "SUMMARY") == Some(Normal(entry.title))
      && ReadText(file, "DESCRIPTION") == Some(Normal(entry.description))
      && ValueIn(Split(Unfold(file)), "DTSTAMP") == Some(entry.stamp)
      && ValueIn(Split(Unfold(file)), "DTSTART") == Some(entry.start)
      && ValueIn(Split(Unfold(file)), "DTEND") == entry.end
  {
    hide FoldAll, Escape, Unescape, Normal, Unfold, Split, ValueIn, ContentLines, Dangling, Clean, AreContentLines;
    LinesAreWhole(entry, version);
    FoldingReadsBack(ContentLines(entry, version));
    EscapeReadsBack(entry.uid);
    EscapeReadsBack(entry.title);
    EscapeReadsBack(entry.description);
    TextsAreFound(entry, version);
    DatesAreFound(entry, version);
  }

  lemma TextsAreFound(entry: CalendarEntry, version: Word)
    ensures var lines := ContentLines(entry, version);
      && ValueIn(lines, "UID") == Some(Escape(entry.uid))
      && ValueIn(lines, "SUMMARY") == Some(Escape(entry.title))
      && ValueIn(lines, "DESCRIPTION") == Some(Escape(entry.description))
  {
    hide Escape, ValueIn, Line, Dangling, Clean;
    PropertiesAre(entry, version);
    var tail := if entry.end.Some? then 1 else 0;
    var lines, properties := ContentLines(entry, version), Properties(entry, version);
    assert forall k | 0 <= k < |properties| :: IsProperty(properties[k]);
    ValueAt(properties, lines, "UID", 6);
    ValueAt(properties, lines, "SUMMARY", 9 + tail);
    ValueAt(properties, lines, "DESCRIPTION", 10 + tail);
  }

  lemma DatesAreFound(entry: CalendarEntry, version: Word)
    ensures var lines := ContentLines(entry, version);
      && ValueIn(lines, "DTSTAMP") == Some(entry.stamp)
      && ValueIn(lines, "DTSTART") == Some(entry.start)
      && ValueIn(lines, "DTEND") == entry.end
  {
    hide Escape, ValueIn, Line, Dangling, Clean;
    PropertiesAre(entry, version);
    var lines, properties := ContentLines(entry, version), Properties(entry, version);
    assert forall k | 0 <= k < |properties| :: IsProperty(properties[k]);
    ValueAt(properties, lines, "DTSTAMP", 7);
    ValueAt(properties, lines, "DTSTART", 8);
    if entry.end.Some? {
      ValueAt(properties, lines, "DTEND", 9);
    } else {
      NoValue(properties, lines, "DTEND");
    }
  }

  /** One event in one calendar, to be added by the program that reads it. */
  lemma FileIsACalendar(entry: CalendarEntry, version: Word)
    ensures var lines := ContentLines(entry, version);
      && |lines| == (if entry.end.Some? then 14 else 13)
      && lines[0] == Line("BEGIN", "VCALENDAR") && lines[5] == Line("BEGIN", "VEVENT")
      && lines[|lines| - 2] == Line("END", "VEVENT") && lines[|lines| - 1] == Line("END", "VCALENDAR")
      && ValueIn(lines, "VERSION") == Some("2.0") && ValueIn(lines, "METHOD") == Some("PUBLISH")
  {
    hide Escape, ValueIn, Dangling, Clean, Line;
    PropertiesAre(entry, version);
    var lines, properties := ContentLines(entry, version), Properties(entry, version);
    assert forall k | 0 <= k < |properties| :: IsProperty(properties[k]);
    ValueAt(properties, lines, "VERSION", 1);
    ValueAt(properties, lines, "METHOD", 4);
  }

  lemma {:induction false} NoValue(properties: seq<Property>, lines: seq<string>, name: string)
    requires |properties| == |lines| && IsName(name)
    requires forall k | 0 <= k < |properties| :: IsName(properties[k].name) && properties[k].name != name
    requires forall k | 0 <= k < |properties| :: lines[k] == Line(properties[k].name, properties[k].value)
    ensures ValueIn(lines, name) == None
  {
    hide Line, IsName;
    if properties != [] {
      NameIsOwn(properties[0], name);
      NoValue(properties[1..], lines[1..], name);
    }
  }

  // ----- the physical lines

  /** The text stops in the middle of an escape. */
  predicate Dangling(text: string) {
    text != [] && (if text[0] == '\\' then |text| == 1 || Dangling(text[2..]) else Dangling(text[1..]))
  }

  lemma {:induction false} DanglingEnd(a: string, b: string)
    requires !Dangling(a)
    ensures Dangling(a + b) == Dangling(b)
  {
    if a == [] {
      assert a + b == b;
    } else if a[0] == '\\' {
      DanglingEnd(a[2..], b);
      assert (a + b)[2..] == a[2..] + b;
    } else {
      DanglingEnd(a[1..], b);
      assert (a + b)[1..] == a[1..] + b;
    }
  }

  lemma {:induction false} OctetsAdd(a: string, b: string)
    ensures Octets(a + b) == Octets(a) + Octets(b)
  {
    if a == [] {
      assert a + b == b;
    } else {
      OctetsAdd(a[1..], b);
      assert (a + b)[1..] == a[1..] + b;
    }
  }

  /** Physical lines of one content line: none too long, none cut inside an
      escape, and each but the first a continuation. */
  ghost predicate WellFolded(lines: seq<string>) {
    && (forall i | 0 <= i < |lines| :: Octets(lines[i]) <= 75 && !Dangling(lines[i]))
    && (forall i | 0 < i < |lines| :: Continues(lines[i - 1], lines[i]))
  }

  /** The line starts with a space, and its first token would not have fitted
      on the line before. */
  predicate Continues(before: string, line: string) {
    && |line| >= 2 && line[0] == ' '
    && Octets(before) + Octets(Token(line[1..])) > 75
  }

  /** Of a line with no half escape, the first token is whole, and the rest. */
  lemma TokenIsWhole(line: string)
    requires line != [] && !Dangling(line)
    ensures !Dangling(Token(line)) && !Dangling(line[|Token(line)|..])
  {}

  lemma TokenStays(token: string, line: string)
    requires line != [] && !Dangling(line) && token == Token(line)
    ensures forall text | token <= text :: Token(text) == token
  {}

  lemma Cons(first: string, lines: seq<string>)
    requires Octets(first) <= MAX_LINE_OCTETS && !Dangling(first)
    requires WellFolded(lines) && (lines != [] ==> Continues(first, lines[0]))
    ensures WellFolded([first] + lines)
  {}

  lemma Single(line: string)
    requires Clean(line)
    ensures Split(line + CRLF) == [line]
  {
    SplitLine(line, []);
    assert line + CRLF + [] == line + CRLF;
  }

  /** Breaking before a token, `text` being what follows that token. */
  lemma BreakIsWellFolded(begun: string, line: string, text: string)
    requires Clean(begun) && !Dangling(begun) && Octets(begun) <= MAX_LINE_OCTETS
    requires line != [] && !Dangling(line) && Octets(begun) + Octets(Token(line)) > MAX_LINE_OCTETS
    requires var next := Split(" " + Token(line) + text);
      next != [] && WellFolded(next) && " " + Token(line) <= next[0]
    ensures var lines := Split(begun + (FOLD + Token(line) + text));
      lines != [] && WellFolded(lines) && lines[0] == begun
  {
    hide Split, Octets, Dangling, Continues, WellFolded, Clean;
    var token := Token(line);
    SplitLine(begun, " " + token + text);
    assert begun + (FOLD + token + text) == begun + CRLF + (" " + token + text);
    var next := Split(" " + token + text);
    TokenStays(token, line);
    assert token <= next[0][1..];
    Follows(begun, token, next[0]);
    Cons(begun, next);
  }

  /** `begun` is what the current physical line holds so far. */
  lemma {:induction false} FoldFromIsWellFolded(begun: string, line: string)
    requires Clean(begun) && !Dangling(begun) && Octets(begun) <= MAX_LINE_OCTETS
    requires Clean(line) && !Dangling(line)
    ensures var lines := Split(begun + FoldFrom(line, Octets(begun)));
      lines != [] && WellFolded(lines) && begun <= lines[0]
    decreases |line|
  {
    hide Split, Octets, Dangling, Continues, WellFolded;
    if line == [] {
      Single(begun);
      OneLineIsWellFolded(begun);
    } else {
      var token := Token(line);
      var tail := line[|token|..];
      TokenIsWhole(line);
      TokenOctets(line);
      OctetsAdd(begun, token);
      if Octets(begun) + Octets(token) > MAX_LINE_OCTETS {
        Space(token);
        FoldFromIsWellFolded(" " + token, tail);
        BreakIsWellFolded(begun, line, FoldFrom(tail, 1 + Octets(token)));
      } else {
        DanglingEnd(begun, token);
        FoldFromIsWellFolded(begun + token, tail);
        assert begun + (token + FoldFrom(tail, Octets(begun) + Octets(token)))
            == begun + token + FoldFrom(tail, Octets(begun + token));
      }
    }
  }

  lemma Follows(before: string, token: string, line: string)
    requires " " + token <= line && token != [] && Token(line[1..]) == token
    requires Octets(before) + Octets(token) > MAX_LINE_OCTETS
    ensures Continues(before, line)
  {}

  lemma Space(token: string)
    ensures Octets(" " + token) == 1 + Octets(token)
    ensures Dangling(" " + token) == Dangling(token)
  {}

  lemma OneLineIsWellFolded(line: string)
    requires Octets(line) <= MAX_LINE_OCTETS && !Dangling(line)
    ensures WellFolded([line])
  {}

  /** Each line of the file folds as the standard asks, no earlier than it must. */
  lemma EveryLineFolds(entry: CalendarEntry, version: Word, i: nat)
    requires i < |ContentLines(entry, version)|
    ensures WellFolded(Split(FoldFrom(ContentLines(entry, version)[i], 0)))
  {
    hide FoldFrom, Split, WellFolded, Octets, ContentLines;
    var line := ContentLines(entry, version)[i];
    LinesAreWhole(entry, version);
    EmptyIsWhole();
    FoldFromIsWellFolded([], line);
    assert [] + FoldFrom(line, 0) == FoldFrom(line, 0);
  }

  lemma EmptyIsWhole()
    ensures !Dangling([]) && Octets([]) == 0 && Clean([])
  {}

  predicate Ended(text: string) {
    text == [] || (|text| >= 2 && text[|text| - 2] == '\r' && text[|text| - 1] == '\n')
  }

  lemma {:induction false} SplitEnded(a: string, b: string)
    requires Ended(a)
    ensures Split(a + b) == Split(a) + Split(b)
  {
    hide Split;
    if a == [] {
      assert a + b == b;
      SplitNothing();
    } else if IsBreak(a) {
      assert (a + b)[2..] == a[2..] + b;
      SplitEnded(a[2..], b);
      SplitBreak(a);
      SplitBreak(a + b);
    } else {
      assert (a + b)[1..] == a[1..] + b;
      SplitEnded(a[1..], b);
      SplitSome(a[1..]);
      SplitChar(a);
      SplitChar(a + b);
    }
  }

  lemma SplitNothing()
    ensures Split([]) == []
  {}

  lemma SplitBreak(text: string)
    requires IsBreak(text)
    ensures Split(text) == [[]] + Split(text[2..])
  {}

  lemma SplitChar(text: string)
    requires text != [] && !IsBreak(text) && Split(text[1..]) != []
    ensures Split(text) == [[text[0]] + Split(text[1..])[0]] + Split(text[1..])[1..]
  {}

  lemma SplitSome(text: string)
    requires text != []
    ensures Split(text) != []
  {}

  lemma {:induction false} FoldIsEnded(line: string, octets: nat)
    ensures |FoldFrom(line, octets)| >= 2 && Ended(FoldFrom(line, octets))
    decreases |line|
  {
    hide Octets;
    if line != [] {
      FoldIsEnded(line[|Token(line)|..], Placed(octets, Token(line)));
    }
  }

  /** A character in UTF-8, section 3 of RFC 3629. */
  function Utf8(c: char): seq<int> {
    var n := c as int;
    if n < 0x80 then [n]
    else if n < 0x800 then [0xC0 + n / 0x40, 0x80 + n % 0x40]
    else if n < 0x1_0000 then [0xE0 + n / 0x1000, 0x80 + n / 0x40 % 0x40, 0x80 + n % 0x40]
    else [0xF0 + n / 0x4_0000, 0x80 + n / 0x1000 % 0x40, 0x80 + n / 0x40 % 0x40, 0x80 + n % 0x40]
  }

  function Encoded(text: string): seq<int> {
    if text == [] then [] else Utf8(text[0]) + Encoded(text[1..])
  }

  /** The octets counted while folding are those of the text in UTF-8. */
  lemma {:induction false} OctetsAreEncoded(text: string)
    ensures Octets(text) == |Encoded(text)|
  {
    if text != [] {
      OctetsAreEncoded(text[1..]);
    }
  }

  ghost predicate AllFit(lines: seq<string>) {
    forall i | 0 <= i < |lines| :: Octets(lines[i]) <= MAX_LINE_OCTETS
  }

  lemma LineFits(line: string)
    requires Clean(line) && !Dangling(line)
    ensures AllFit(Split(FoldFrom(line, 0)))
  {
    hide Split, FoldFrom, Octets, Dangling, Clean;
    EmptyIsWhole();
    FoldFromIsWellFolded([], line);
    assert [] + FoldFrom(line, 0) == FoldFrom(line, 0);
  }

  lemma {:induction false} PhysicalLinesFit(lines: seq<string>)
    requires forall k | 0 <= k < |lines| :: Clean(lines[k]) && !Dangling(lines[k])
    ensures AllFit(Split(FoldAll(lines)))
  {
    hide Split, FoldFrom, Octets, Dangling, Clean;
    if lines == [] {
      NothingToRead();
      NothingIsUnfolded();
    } else {
      var folded := FoldFrom(lines[0], 0);
      FoldIsEnded(lines[0], 0);
      SplitEnded(folded, FoldAll(lines[1..]));
      LineFits(lines[0]);
      PhysicalLinesFit(lines[1..]);
    }
  }

  lemma NothingIsUnfolded()
    ensures Unfold([]) == []
  {}

  /** No physical line of the file is longer than 75 octets. */
  lemma FileFits(entry: CalendarEntry, version: Word)
    ensures var lines := Split(FoldAll(ContentLines(entry, version)));
      forall i | 0 <= i < |lines| :: |Encoded(lines[i])| <= 75
  {
    hide Split, FoldAll, Dangling, ContentLines, Octets, Encoded;
    LinesAreWhole(entry, version);
    PhysicalLinesFit(ContentLines(entry, version));
    var lines := Split(FoldAll(ContentLines(entry, version)));
    forall i | 0 <= i < |lines| ensures |Encoded(lines[i])| <= 75 {
      OctetsAreEncoded(lines[i]);
    }
  }
}
