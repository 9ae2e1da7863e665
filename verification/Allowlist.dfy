/** The allowlist file: one key a line, with comments, labels, blank lines and repeats. */
module Allowlist {
  import opened Wrappers
  import opened ByteCodec
  import opened Keys
  import opened Occurrences

  /** The scanner refuses a line that fills its buffer. */
  const MAX_TOKEN_SIZE: nat := 65536

  datatype LoadError = BadLine(line: nat, cause: ParseError) | LineTooLong

  // Lines.

  /** What precedes the first `stop`. */
  function UpTo(s: string, stop: char): (t: string)
    ensures t <= s && stop !in t
    ensures |t| < |s| ==> s[|t|] == stop
  {
    if s == [] || s[0] == stop then [] else [s[0]] + UpTo(s[1..], stop)
  }

  /** The lines of a text; what follows the last newline is a line unless it is empty. */
  function Lines(text: string): seq<string> {
    if text == [] then []
    else
      var line := UpTo(text, '\n');
      if |line| == |text| then [line] else [line] + Lines(text[|line| + 1..])
  }

  function DropCarriageReturn(line: string): string {
    if line != [] && line[|line| - 1] == '\r' then line[..|line| - 1] else line
  }

  function Utf8Length(s: string): nat {
    if s == [] then 0
    else
      var c := s[0] as int;
      (if c < 0x80 then 1 else if c < 0x800 then 2 else if c < 0x1_0000 then 3 else 4) + Utf8Length(s[1..])
  }

  // One line.

  /** The leading run of characters that are not space. */
  function Word(s: string): (w: string)
    ensures w <= s && NoSpace(w)
    ensures |w| < |s| ==> IsSpace(s[|w|])
    ensures s != [] && !IsSpace(s[0]) ==> w != []
  {
    if s == [] || IsSpace(s[0]) then [] else [s[0]] + Word(s[1..])
  }

  /** The white-space-separated fields. */
  function Fields(s: string): (fields: seq<string>)
    ensures fields == [] <==> TrimLeft(s) == []
    decreases |s|
  {
    var t := TrimLeft(s);
    if t == [] then [] else [Word(t)] + Fields(t[|Word(t)|..])
  }

  function KeyFromLine(text: string): Result<Key, ParseError>
    requires Fields(text) != []
  {
    Parse(Fields(text)[0])
  }

  /** The part of a line that is read. */
  function Content(line: string): string {
    TrimSpace(UpTo(DropCarriageReturn(line), '#'))
  }

  lemma ContentHasFields(line: string)
    ensures Content(line) != "" ==> Fields(Content(line)) != []
  {
    var before, after := TrimSplits(UpTo(DropCarriageReturn(line), '#'));
  }

  /** The key on a line, or `None` for a blank one. */
  function LineKey(line: string): Result<Option<Key>, ParseError> {
    if Content(line) == "" then Ok(None)
    else
      ContentHasFields(line);
      match KeyFromLine(Content(line))
      case Err(e) => Err(e)
      case Ok(pub) => Ok(Some(pub))
  }

  // The language of a line.

  /** Nothing but space, up to the end of the line or a comment. */
  ghost predicate Blank(line: string) {
    AllSpace(UpTo(line, '#'))
  }

  /** Space, then a key in either case, then the end of the line, a comment, or a label set off by space. */
  ghost predicate Names(line: string, pub: Key, pad: string, word: string, rest: string) {
    && line == pad + word + rest
    && AllSpace(pad) && Lowered(word) == Format(pub)
    && (rest == [] || IsSpace(rest[0]) || rest[0] == '#')
  }

  ghost predicate NamesKey(line: string, pub: Key) {
    exists pad, word, rest :: Names(line, pub, pad, word, rest)
  }

  lemma UpToIs(s: string, stop: char, t: string)
    requires t <= s && stop !in t && (|t| < |s| ==> s[|t|] == stop)
    ensures UpTo(s, stop) == t
  {
    var u := UpTo(s, stop);
    if |u| < |t| {
      assert false;
    } else if |t| < |u| {
      assert false;
    }
  }

  lemma WordIs(s: string, w: string)
    requires w <= s && NoSpace(w) && (|w| < |s| ==> IsSpace(s[|w|]))
    ensures Word(s) == w
  {
    var u := Word(s);
    if |u| < |w| {
      assert false;
    } else if |w| < |u| {
      assert false;
    }
  }

  /** A carriage return at the end of a line makes no difference. */
  lemma CarriageReturnIgnored(line: string)
    ensures Content(line) == TrimSpace(UpTo(line, '#'))
  {
    var x := DropCarriageReturn(line);
    if x != line {
      assert line == x + "\r";
      if '#' in x {
        var t := UpTo(x, '#');
        assert t != x;
        UpToIs(line, '#', t);
      } else {
        UpToIs(x, '#', x);
        UpToIs(line, '#', line);
        TrimSpaceOfPadded(x, "\r");
      }
    }
  }

  /** Exactly the blank lines are passed over. */
  lemma BlankIff(line: string)
    ensures LineKey(line) == Ok(None) <==> Blank(line)
  {
    CarriageReturnIgnored(line);
    var before, after := TrimSplits(UpTo(line, '#'));
    if Blank(line) {
      TrimOfBlank(UpTo(line, '#'));
    }
  }

  /** A line whose content is not empty yields whatever its leading word parses to. */
  lemma FirstField(line: string, content: string)
    requires content == Content(line) && TrimLeft(content) == content != []
    ensures match Parse(Word(content))
            case Ok(pub) => LineKey(line) == Ok(Some(pub))
            case Err(e) => LineKey(line) == Err(e)
  {
    assert Fields(content)[0] == Word(content);
  }

  lemma WordParsesIff(word: string, pub: Key)
    requires NoSpace(word)
    ensures Parse(word) == Ok(pub) <==> Lowered(word) == Format(pub)
  {
    ParseIff(word, pub);
    TrimOfPlain(word);
  }

  lemma ReadLineNames(line: string, pub: Key)
    requires LineKey(line) == Ok(Some(pub))
    ensures NamesKey(line, pub)
  {
    var r := Content(line);
    assert r != "";
    CarriageReturnIgnored(line);
    var pad, after := TrimSplits(UpTo(line, '#'));
    var w := Word(r);
    assert Lowered(w) == Format(pub) by {
      FirstField(line, r);
      WordParsesIff(w, pub);
    }
    var rest := Remainder(line, UpTo(line, '#'), pad, r, after, w);
    RestIsSetOff(line, pad, r, after, rest);
    assert Names(line, pub, pad, w, rest);
  }

  lemma Remainder(line: string, c: string, pad: string, r: string, after: string, w: string) returns (rest: string)
    requires c <= line && c == pad + r + after && w <= r
    ensures line == pad + w + rest
  {
    rest := line[|pad| + |w|..];
    assert c[..|pad| + |w|] == pad + w;
  }

  /** What follows the leading word is nothing, a comment, or begins with space. */
  lemma RestIsSetOff(line: string, pad: string, r: string, after: string, rest: string)
    requires UpTo(line, '#') == pad + r + after && AllSpace(after) && line == pad + Word(r) + rest
    ensures rest == [] || IsSpace(rest[0]) || rest[0] == '#'
  {
    var c, w := UpTo(line, '#'), Word(r);
    if rest != [] {
      assert rest[0] == line[|pad| + |w|];
      if |w| < |r| {
        assert c[|pad| + |w|] == r[|w|];
      } else if after != [] {
        assert c[|pad| + |w|] == after[0];
      }
    }
  }

  lemma NamedLineReads(line: string, pub: Key, pad: string, word: string, rest: string)
    requires Names(line, pub, pad, word, rest)
    ensures LineKey(line) == Ok(Some(pub))
  {
    KeyIsPlain(word, pub);
    var tail := TrimRight(UpTo(rest, '#'));
    assert Content(line) == word + tail by {
      CarriageReturnIgnored(line);
      UpToOfNamed(line, pad, word, rest);
      TrimOfNamed(pad, word, UpTo(rest, '#'));
    }
    TailIsSetOff(rest);
    LeadingWord(word, tail);
    FirstField(line, word + tail);
    WordParsesIff(word, pub);
  }

  lemma TailIsSetOff(rest: string)
    requires rest == [] || IsSpace(rest[0]) || rest[0] == '#'
    ensures var tail := TrimRight(UpTo(rest, '#')); tail == [] || IsSpace(tail[0])
  {
    TrimRightSplits(UpTo(rest, '#'));
  }

  lemma LeadingWord(word: string, tail: string)
    requires NoSpace(word) && word != [] && (tail == [] || IsSpace(tail[0]))
    ensures Word(word + tail) == word && TrimLeft(word + tail) == word + tail
  {
    WordIs(word + tail, word);
  }

  lemma UpToOfNamed(line: string, pad: string, word: string, rest: string)
    requires line == pad + word + rest && AllSpace(pad) && forall i | 0 <= i < |word| :: IsHexDigit(word[i])
    ensures UpTo(line, '#') == pad + (word + UpTo(rest, '#'))
  {
    UpToIs(line, '#', pad + (word + UpTo(rest, '#')));
  }

  lemma TrimOfNamed(pad: string, word: string, tail: string)
    requires AllSpace(pad) && NoSpace(word) && word != []
    ensures TrimSpace(pad + (word + tail)) == word + TrimRight(tail)
  {
    TrimLeftOfPadded(pad, word + tail);
    assert TrimLeft(word + tail) == word + tail;
    TrimRightOfAppend(word, tail);
    assert TrimRight(tail) == [] ==> word + TrimRight(tail) == word;
  }

  /** Exactly the lines that name a key yield it. */
  lemma LineKeyIff(line: string, pub: Key)
    ensures LineKey(line) == Ok(Some(pub)) <==> NamesKey(line, pub)
  {
    if LineKey(line) == Ok(Some(pub)) {
      ReadLineNames(line, pub);
    }
    forall pad, word, rest | Names(line, pub, pad, word, rest)
      ensures LineKey(line) == Ok(Some(pub))
    {
      NamedLineReads(line, pub, pad, word, rest);
    }
  }

  /** How many bytes a character takes. */
  lemma CharacterWidths()
    ensures Utf8Length("\U{007F}") == 1 && Utf8Length("\U{0080}") == 2 && Utf8Length("\U{07FF}") == 2
    ensures Utf8Length("\U{0800}") == 3 && Utf8Length("\U{FFFF}") == 3 && Utf8Length("\U{10000}") == 4
  {
  }

  lemma {:induction false} AsciiLength(s: string)
    requires forall i | 0 <= i < |s| :: s[i] as int < 0x80
    ensures Utf8Length(s) == |s|
  {
    if s != [] {
      AsciiLength(s[1..]);
    }
  }

  // Loading.

  /** A line that can be read: it fits the scanner's buffer, and is blank or names a key. */
  predicate Readable(line: string) {
    Utf8Length(line) < MAX_TOKEN_SIZE && LineKey(line).Ok?
  }

  /** The keys on the lines, in order and with repeats. */
  function KeysOn(lines: seq<string>): seq<Key> {
    if lines == [] then []
    else
      var n := |lines| - 1;
      KeysOn(lines[..n])
      + if LineKey(lines[n]).Ok? && LineKey(lines[n]).value.Some? then [LineKey(lines[n]).value.value] else []
  }

  /** Why a line cannot be read; `number` counts from one. */
  function LineError(line: string, number: nat): LoadError
    requires !Readable(line)
  {
    if Utf8Length(line) >= MAX_TOKEN_SIZE then LineTooLong else BadLine(number, LineKey(line).error)
  }

  ghost predicate AllReadable(lines: seq<string>) {
    forall i | 0 <= i < |lines| :: Readable(lines[i])
  }

  /** Line `i` is the first that cannot be read, and `e` says why. */
  ghost predicate FailsAt(lines: seq<string>, i: int, e: LoadError) {
    && 0 <= i < |lines| && AllReadable(lines[..i])
    && !Readable(lines[i]) && e == LineError(lines[i], i + 1)
  }

  ghost predicate FailsWith(lines: seq<string>, e: LoadError) {
    exists i :: FailsAt(lines, i, e)
  }

  lemma KeysOnAppend(lines: seq<string>, line: string)
    requires LineKey(line).Ok?
    ensures KeysOn(lines + [line]) == KeysOn(lines) + if LineKey(line).value.Some? then [LineKey(line).value.value] else []
  {
    assert (lines + [line])[..|lines|] == lines;
  }

  /** The lines so far could be read, `out` holds their keys in order of first occurrence, and `seen` the same keys. */
  ghost predicate Loaded(lines: seq<string>, out: seq<Key>, seen: set<Key>) {
    AllReadable(lines) && FirstOccurrences(out, KeysOn(lines)) && SameElements(seen, out)
  }

  lemma BlankLineLoads(lines: seq<string>, line: string, out: seq<Key>, seen: set<Key>)
    requires Loaded(lines, out, seen) && Readable(line) && LineKey(line).value.None?
    ensures Loaded(lines + [line], out, seen)
  {
    KeysOnAppend(lines, line);
    assert KeysOn(lines + [line]) == KeysOn(lines);
  }

  lemma KeyLineLoads(lines: seq<string>, line: string, out: seq<Key>, seen: set<Key>, pub: Key)
    requires Loaded(lines, out, seen) && Readable(line) && LineKey(line).value == Some(pub)
    ensures pub in seen ==> Loaded(lines + [line], out, seen)
    ensures pub !in seen ==> Loaded(lines + [line], out + [pub], seen + {pub})
  {
    KeysOnAppend(lines, line);
    OneMoreOccurrence(out, seen, KeysOn(lines), pub);
  }

  lemma LineFails(lines: seq<string>, i: nat)
    requires i < |lines| && AllReadable(lines[..i]) && !Readable(lines[i])
    ensures FailsWith(lines, LineError(lines[i], i + 1))
  {
    assert FailsAt(lines, i, LineError(lines[i], i + 1));
  }

  lemma NextLine(lines: seq<string>, i: nat)
    requires i < |lines|
    ensures lines[..i + 1] == lines[..i] + [lines[i]]
  {
  }

  method ReadLine(line: string) returns (entry: Result<Option<Key>, ParseError>)
    ensures entry == LineKey(line)
  {
    var content := Content(line);
    if content == "" {
      return Ok(None);
    }
    ContentHasFields(line);
    var parsed := KeyFromLine(content);
    if parsed.Err? {
      return Err(parsed.error);
    }
    return Ok(Some(parsed.value));
  }

  method LoadAllowlist(text: string) returns (result: Result<seq<Key>, LoadError>)
    ensures match result
            case Ok(out) => AllReadable(Lines(text)) && FirstOccurrences(out, KeysOn(Lines(text)))
            case Err(e) => FailsWith(Lines(text), e)
  {
    var out: seq<Key> := [];
    var seen: set<Key> := {};
    var lines := Lines(text);
    for i := 0 to |lines|
      invariant Loaded(lines[..i], out, seen)
    {
      if Utf8Length(lines[i]) >= MAX_TOKEN_SIZE {
        LineFails(lines, i);
        return Err(LineTooLong);
      }
      var entry := ReadLine(lines[i]);
      if entry.Err? {
        LineFails(lines, i);
        return Err(BadLine(i + 1, entry.error));
      }
      NextLine(lines, i);
      if entry.value.None? {
        BlankLineLoads(lines[..i], lines[i], out, seen);
        continue;
      }
      var pub := entry.value.value;
      KeyLineLoads(lines[..i], lines[i], out, seen, pub);
      if pub in seen {
        continue;
      }
      seen := seen + {pub};
      out := out + [pub];
    }
    assert lines[..|lines|] == lines;
    return Ok(out);
  }

  // The language of an allowlist.

  /** A line loads when it fits and is blank or names a key; otherwise the whole file fails. */
  lemma ReadableIff(line: string)
    ensures Readable(line) <==> Utf8Length(line) < MAX_TOKEN_SIZE && (Blank(line) || exists pub :: NamesKey(line, pub))
  {
    BlankIff(line);
    if LineKey(line).Ok? && LineKey(line).value.Some? {
      LineKeyIff(line, LineKey(line).value.value);
    }
    forall pub | NamesKey(line, pub)
      ensures LineKey(line).Ok?
    {
      LineKeyIff(line, pub);
    }
  }

  /** A line of spaces loads if and only if there are at most 65535. */
  lemma LineLimit(line: string)
    requires forall i | 0 <= i < |line| :: line[i] == ' '
    ensures Readable(line) <==> |line| <= 65535
  {
    AsciiLength(line);
    UpToIs(line, '#', line);
    BlankIff(line);
  }

  /** A line as an operator writes it. */
  datatype Entry =
    | Remark(pad: string, comment: string)
    | Permit(pad: string, pub: Key, note: string)

  ghost predicate WellFormed(e: Entry) {
    && AllSpace(e.pad) && '\n' !in EntryLine(e) && Utf8Length(EntryLine(e)) < MAX_TOKEN_SIZE
    && match e
       case Remark(_, comment) => comment == [] || comment[0] == '#'
       case Permit(_, _, note) => note == [] || IsSpace(note[0]) || note[0] == '#'
  }

  function EntryLine(e: Entry): string {
    match e
    case Remark(pad, comment) => pad + comment
    case Permit(pad, pub, note) => pad + Format(pub) + note
  }

  /** The entries, each on a line of its own that a newline ends. */
  function Render(entries: seq<Entry>): string {
    if entries == [] then [] else EntryLine(entries[0]) + "\n" + Render(entries[1..])
  }

  function EntryLines(entries: seq<Entry>): seq<string> {
    if entries == [] then []
    else
      var n := |entries| - 1;
      EntryLines(entries[..n]) + [EntryLine(entries[n])]
  }

  function Permitted(entries: seq<Entry>): seq<Key> {
    if entries == [] then []
    else
      var n := |entries| - 1;
      Permitted(entries[..n]) + if entries[n].Permit? then [entries[n].pub] else []
  }

  lemma EntryReads(e: Entry)
    requires WellFormed(e)
    ensures Readable(EntryLine(e))
    ensures LineKey(EntryLine(e)) == Ok(if e.Permit? then Some(e.pub) else None)
  {
    var line := EntryLine(e);
    match e
    case Remark(pad, comment) =>
      UpToIs(line, '#', pad);
      BlankIff(line);
    case Permit(pad, pub, note) =>
      FormatIsLower(pub);
      NamedLineReads(line, pub, pad, Format(pub), note);
  }

  lemma {:induction false} EntriesRead(entries: seq<Entry>)
    requires forall i | 0 <= i < |entries| :: WellFormed(entries[i])
    ensures AllReadable(EntryLines(entries)) && KeysOn(EntryLines(entries)) == Permitted(entries)
  {
    if entries != [] {
      var n := |entries| - 1;
      var lines := EntryLines(entries[..n]);
      EntriesRead(entries[..n]);
      EntryReads(entries[n]);
      KeysOnAppend(lines, EntryLine(entries[n]));
    }
  }

  lemma LinesOfLine(line: string, rest: string)
    requires '\n' !in line
    ensures Lines(line + "\n" + rest) == [line] + Lines(rest)
  {
    var text := line + "\n" + rest;
    UpToIs(text, '\n', line);
    assert text[|line| + 1..] == rest;
  }

  lemma {:induction false} EntryLinesFromFront(entries: seq<Entry>)
    requires entries != []
    ensures EntryLines(entries) == [EntryLine(entries[0])] + EntryLines(entries[1..])
  {
    var n := |entries| - 1;
    if n > 0 {
      EntryLinesFromFront(entries[..n]);
      assert entries[1..][..n - 1] == entries[..n][1..];
    }
  }

  lemma {:induction false} LinesOfRender(entries: seq<Entry>)
    requires forall i | 0 <= i < |entries| :: WellFormed(entries[i])
    ensures Lines(Render(entries)) == EntryLines(entries)
  {
    if entries != [] {
      LinesOfRender(entries[1..]);
      LinesOfLine(EntryLine(entries[0]), Render(entries[1..]));
      EntryLinesFromFront(entries);
    }
  }

  /**
   Round trip.  Whatever blank lines, comments, labels and repeats surround the keys, a rendered allowlist
   reads without error, and the keys on its lines are the permitted ones in order.
   */
  lemma RenderedAllowlistReads(entries: seq<Entry>)
    requires forall i | 0 <= i < |entries| :: WellFormed(entries[i])
    ensures AllReadable(Lines(Render(entries))) && KeysOn(Lines(Render(entries))) == Permitted(entries)
  {
    EntriesRead(entries);
    LinesOfRender(entries);
  }

  /** The newline that ends the last line may be left out. */
  lemma {:induction false} LastNewlineOptional(text: string)
    requires text != [] && text[|text| - 1] != '\n'
    ensures Lines(text + "\n") == Lines(text)
    decreases |text|
  {
    var line := UpTo(text, '\n');
    if |line| == |text| {
      assert line == text;
      LinesOfLine(text, []);
      assert text + "\n" + [] == text + "\n";
      assert [text] + Lines([]) == Lines(text);
    } else {
      var rest := text[|line| + 1..];
      assert text == line + "\n" + rest;
      assert text + "\n" == line + "\n" + (rest + "\n");
      LinesOfLine(line, rest);
      LinesOfLine(line, rest + "\n");
      assert rest != [] && rest[|rest| - 1] == text[|text| - 1];
      LastNewlineOptional(rest);
    }
  }
}
