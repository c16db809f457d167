/** Splitting prefix-command text into a name and arguments with quotes, escapes and apostrophes. */
module Commands {
  import opened Text
  import opened Wrappers

  predicate IsNameCharacter(c: char) {
    'a' <= c <= 'z' || 'A' <= c <= 'Z' || '0' <= c <= '9'
  }

  /** `^[A-Za-z0-9][A-Za-z0-9_-]*$` */
  predicate IsName(text: string) {
    text != "" && IsNameCharacter(text[0]) &&
    forall i | 0 <= i < |text| :: IsNameCharacter(text[i]) || text[i] == '_' || text[i] == '-'
  }

  datatype Rejection = DanglingBackslash | UnclosedDouble | UnclosedSingle | UnclosedSingleHeldApostrophe

  datatype Parse = Declined | Rejected(reason: Rejection, rejected: string) | Parsed(name: string, rawArgs: string, args: seq<string>)

  function TrimStart(text: string): string {
    if text != "" && IsSpace(text[0]) then TrimStart(text[1..]) else text
  }

  /** The leading characters that are not white space. */
  function LeadingWord(text: string): (word: string)
    ensures word <= text
  {
    if text == "" || IsSpace(text[0]) then "" else [text[0]] + LeadingWord(text[1..])
  }

  /** Whether a single-quoted span ends at the quote that starts `rest`: not before a letter or digit. */
  predicate EndsSingleQuotedSpan(letter: char -> bool, rest: string) {
    |rest| <= 1 || !letter(rest[1])
  }

  // ----- what the splitter computes -----

  /** The splitter between two characters. `adjacent` says that the character before closed a span. */
  datatype State = State(args: seq<string>, current: string, quote: Option<char>, started: bool,
                         adjacent: bool, heldApostrophe: bool)

  datatype Split = Done(args: seq<string>) | Refused(reason: Rejection)

  function Finish(state: State): Split {
    if state.quote == Some('"') then Refused(UnclosedDouble)
    else if state.quote.Some? then
      Refused(if state.heldApostrophe then UnclosedSingleHeldApostrophe else UnclosedSingle)
    else Done(if state.started then state.args + [state.current] else state.args)
  }

  /** One character other than a backslash. */
  function Step(letter: char -> bool, rest: string, state: State): State
    requires rest != ""
  {
    var c := rest[0];
    if state.quote.Some? then
      if c == state.quote.value && (c == '"' || EndsSingleQuotedSpan(letter, rest)) then
        state.(quote := None, adjacent := true)
      else
        state.(current := state.current + [c], adjacent := false, heldApostrophe := state.heldApostrophe || c == '\'')
    else if c == '"' || (c == '\'' && (!state.started || state.adjacent)) then
      state.(quote := Some(c), started := true, adjacent := false, heldApostrophe := false)
    else if IsSpace(c) then
      if state.started then state.(args := state.args + [state.current], current := "", started := false, adjacent := false)
      else state.(adjacent := false)
    else state.(current := state.current + [c], started := true, adjacent := false)
  }

  function Escaped(c: char, state: State): State {
    state.(current := state.current + [c], started := true, adjacent := false)
  }

  function Scan(letter: char -> bool, rest: string, state: State): Split
    decreases |rest|
  {
    if rest == "" then Finish(state)
    else if rest[0] == '\\' then
      if |rest| == 1 then Refused(DanglingBackslash) else Scan(letter, rest[2..], Escaped(rest[1], state))
    else Scan(letter, rest[1..], Step(letter, rest, state))
  }

  const START := State([], "", None, false, true, false)

  function ParseCommand(letter: char -> bool, input: string): Parse {
    var source := TrimStart(input);
    var name := LeadingWord(source);
    if !IsName(name) then Declined
    else
      var rawArgs := TrimStart(source[|name|..]);
      match Scan(letter, rawArgs, START)
      case Refused(reason) => Rejected(reason, name)
      case Done(args) => Parsed(name, rawArgs, args)
  }

  // ----- the splitter -----

  /** The index loop over the argument text, for any class of letters and digits. */
  method SplitArguments(letter: char -> bool, rawArgs: string) returns (r: Split)
    ensures r == Scan(letter, rawArgs, START)
  {
    var args: seq<string> := [];
    var current := "";
    var quote: Option<char> := None;
    var started := false;
    var closedAt := -1;
    var heldApostrophe := false;
    var index := 0;
    assert rawArgs[0..] == rawArgs;
    while index < |rawArgs|
      invariant index <= |rawArgs| && closedAt < index
      invariant Scan(letter, rawArgs[index..], State(args, current, quote, started, closedAt == index - 1, heldApostrophe)) ==
                Scan(letter, rawArgs, START)
    {
      var character := rawArgs[index];
      ghost var rest := rawArgs[index..];
      assert rest[1..] == rawArgs[index + 1..];
      if character == '\\' {
        if index + 1 == |rawArgs| {
          return Refused(DanglingBackslash);
        }
        assert rest[2..] == rawArgs[index + 2..];
        current := current + [rawArgs[index + 1]];
        started := true;
        index := index + 1;
      } else {
        if quote.Some? {
          if character == quote.value && (quote.value == '"' || EndsSingleQuotedSpan(letter, rawArgs[index..])) {
            quote := None;
            closedAt := index;
          } else {
            current := current + [character];
            if character == '\'' {
              heldApostrophe := true;
            }
          }
        } else if character == '"' || (character == '\'' && (!started || closedAt == index - 1)) {
          quote := Some(character);
          heldApostrophe := false;
          started := true;
        } else if IsSpace(character) {
          if started {
            args := args + [current];
            current := "";
            started := false;
          }
        } else {
          current := current + [character];
          started := true;
        }
      }
      index := index + 1;
    }
    if quote == Some('"') {
      return Refused(UnclosedDouble);
    }
    if quote.Some? {
      return Refused(if heldApostrophe then UnclosedSingleHeldApostrophe else UnclosedSingle);
    }
    return Done(if started then args + [current] else args);
  }

  method ParseQuotedPrefixCommand(letter: char -> bool, input: string) returns (r: Parse)
    ensures r == ParseCommand(letter, input)
  {
    var source := TrimStart(input);
    var name := LeadingWord(source);
    if !IsName(name) {
      return Declined;
    }
    var rawArgs := TrimStart(source[|name|..]);
    var split := SplitArguments(letter, rawArgs);
    return match split
      case Refused(reason) => Rejected(reason, name)
      case Done(args) => Parsed(name, rawArgs, args);
  }

  // ----- composition -----

  /** Between words nothing but the arguments so far matters. */
  function Between(args: seq<string>): State {
    State(args, "", None, false, false, false)
  }

  /** Outside quotes a held apostrophe is forgotten, and adjacency only matters within a word. */
  ghost predicate Alike(s: State, t: State) {
    && s.args == t.args && s.current == t.current && s.quote.None? && t.quote.None? && s.started == t.started
    && (s.started ==> s.adjacent == t.adjacent)
  }

  lemma {:induction false} AlikeScan(letter: char -> bool, rest: string, s: State, t: State)
    requires Alike(s, t)
    ensures Scan(letter, rest, s) == Scan(letter, rest, t)
    decreases |rest|
  {
    if rest != "" {
      if rest[0] == '\\' {
        if |rest| > 1 {
          AlikeScan(letter, rest[2..], Escaped(rest[1], s), Escaped(rest[1], t));
        }
      } else if Step(letter, rest, s).quote.None? {
        AlikeScan(letter, rest[1..], Step(letter, rest, s), Step(letter, rest, t));
      }
    }
  }

  /** White space is never a letter or digit. */
  ghost predicate IsLetterClass(letter: char -> bool) {
    forall c | IsSpace(c) :: !letter(c)
  }

  /** A text that splits on its own splits the same way before white space, and what follows starts afresh. */
  lemma {:induction false} ScanConcat(letter: char -> bool, text: string, space: char, more: string, state: State)
    requires IsLetterClass(letter) && IsSpace(space)
    requires Scan(letter, text, state).Done?
    requires !state.started ==> state.current == "" && state.quote.None?
    ensures Scan(letter, text + [space] + more, state) == Scan(letter, more, Between(Scan(letter, text, state).args))
    decreases |text|
  {
    var whole := text + [space] + more;
    if text == "" {
      assert whole == [space] + more && whole[1..] == more;
      AlikeScan(letter, more, Step(letter, whole, state), Between(Finish(state).args));
    } else if text[0] == '\\' {
      assert whole[2..] == text[2..] + [space] + more;
      ScanConcat(letter, text[2..], space, more, Escaped(text[1], state));
    } else {
      assert whole[1..] == text[1..] + [space] + more;
      assert EndsSingleQuotedSpan(letter, whole) == EndsSingleQuotedSpan(letter, text) by {
        assert |text| == 1 ==> whole[1] == space;
      }
      ScanConcat(letter, text[1..], space, more, Step(letter, text, state));
    }
  }

  lemma {:induction false} SkipSpaces(letter: char -> bool, spaces: string, more: string, args: seq<string>)
    requires forall c <- spaces :: IsSpace(c)
    ensures Scan(letter, spaces + more, Between(args)) == Scan(letter, more, Between(args))
  {
    if spaces == "" {
      assert spaces + more == more;
    } else {
      SkipSpaces(letter, spaces[1..], more, args);
      assert (spaces + more)[1..] == spaces[1..] + more;
      assert Step(letter, spaces + more, Between(args)) == Between(args);
    }
  }

  // ----- printing arguments -----

  /** Three ways to write an argument. */
  datatype Style = Double | Single | Bare

  /** Escapes the characters a style needs escaped. */
  function Escape(arg: string, escaped: set<char>): string {
    if arg == "" then ""
    else (if arg[0] in escaped then ['\\', arg[0]] else [arg[0]]) + Escape(arg[1..], escaped)
  }

  function EscapeAll(arg: string): string {
    if arg == "" then "" else ['\\', arg[0]] + EscapeAll(arg[1..])
  }

  function Quote(style: Style, arg: string): string {
    match style
    case Double => "\"" + Escape(arg, {'"', '\\'}) + "\""
    case Single => "'" + Escape(arg, {'\'', '\\'}) + "'"
    case Bare => EscapeAll(arg)
  }

  /** Inside a span the escaped argument is read back character by character, up to the closing quote. */
  lemma {:induction false} ScanSpan(letter: char -> bool, quote: char, arg: string, state: State)
    requires quote == '"' || quote == '\''
    requires state.quote == Some(quote) && state.started
    ensures Scan(letter, Escape(arg, {quote, '\\'}) + [quote], state) == Done(state.args + [state.current + arg])
    decreases |arg|
  {
    var text := Escape(arg, {quote, '\\'}) + [quote];
    if arg == "" {
      assert text == [quote] && text[1..] == "";
      assert state.current + arg == state.current;
    } else {
      var c := arg[0];
      var rest := Escape(arg[1..], {quote, '\\'}) + [quote];
      assert state.current + arg == (state.current + [c]) + arg[1..];
      if c in {quote, '\\'} {
        assert text == ['\\', c] + rest && text[2..] == rest;
        ScanSpan(letter, quote, arg[1..], Escaped(c, state));
      } else {
        assert text == [c] + rest && text[1..] == rest;
        ScanSpan(letter, quote, arg[1..], Step(letter, text, state));
      }
    }
  }

  lemma {:induction false} ScanBare(letter: char -> bool, arg: string, state: State)
    requires state.quote.None? && (arg != "" || state.started)
    ensures Scan(letter, EscapeAll(arg), state) == Done(state.args + [state.current + arg])
    decreases |arg|
  {
    if arg == "" {
      assert state.current + arg == state.current;
    } else {
      var text := EscapeAll(arg);
      assert text == ['\\', arg[0]] + EscapeAll(arg[1..]) && text[2..] == EscapeAll(arg[1..]);
      assert state.current + arg == (state.current + [arg[0]]) + arg[1..];
      ScanBare(letter, arg[1..], Escaped(arg[0], state));
    }
  }

  /** One printed argument reads back as itself. Only an empty argument needs quotes. */
  lemma {:induction false} ScanQuoted(letter: char -> bool, style: Style, arg: string, args: seq<string>)
    requires style.Bare? ==> arg != ""
    ensures Scan(letter, Quote(style, arg), Between(args)) == Done(args + [arg])
  {
    var text := Quote(style, arg);
    assert "" + arg == arg;
    match style {
      case Double =>
        assert text[1..] == Escape(arg, {'"', '\\'}) + ['"'];
        ScanSpan(letter, '"', arg, Step(letter, text, Between(args)));
      case Single =>
        assert text[1..] == Escape(arg, {'\'', '\\'}) + ['\''];
        ScanSpan(letter, '\'', arg, Step(letter, text, Between(args)));
      case Bare =>
        ScanBare(letter, arg, Between(args));
    }
  }

  /** A printed argument and the white space after it. */
  datatype Item = Item(style: Style, arg: string, gap: string)

  ghost predicate Printable(items: seq<Item>) {
    forall i | 0 <= i < |items| ::
      && (items[i].style.Bare? ==> items[i].arg != "")
      && (forall c <- items[i].gap :: IsSpace(c))
      && (i + 1 < |items| ==> items[i].gap != "")
  }

  function Line(items: seq<Item>): string {
    if items == [] then "" else Quote(items[0].style, items[0].arg) + items[0].gap + Line(items[1..])
  }

  function ArgsOf(items: seq<Item>): seq<string> {
    if items == [] then [] else [items[0].arg] + ArgsOf(items[1..])
  }

  lemma {:induction false} ScanLine(letter: char -> bool, items: seq<Item>, args: seq<string>)
    requires IsLetterClass(letter) && Printable(items)
    ensures Scan(letter, Line(items), Between(args)) == Done(args + ArgsOf(items))
    decreases |items|
  {
    hide Quote, Step, IsSpace;
    if items == [] {
      assert args + ArgsOf(items) == args;
    } else {
      var item, rest := items[0], items[1..];
      var text := Quote(item.style, item.arg);
      ScanQuoted(letter, item.style, item.arg, args);
      assert (args + [item.arg]) + ArgsOf(rest) == args + ArgsOf(items);
      if item.gap == "" {
        assert rest == [] && Line(items) == text;
        assert args + [item.arg] == args + ArgsOf(items);
      } else {
        var more := item.gap[1..] + Line(rest);
        assert Line(items) == text + [item.gap[0]] + more;
        assert item.gap[0] in item.gap;
        ScanConcat(letter, text, item.gap[0], more, Between(args));
        SkipSpaces(letter, item.gap[1..], Line(rest), args + [item.arg]);
        ScanLine(letter, rest, args + [item.arg]);
      }
    }
  }

  lemma {:induction false} TrimSpaces(spaces: string, text: string)
    requires (forall c <- spaces :: IsSpace(c)) && (text == "" || !IsSpace(text[0]))
    ensures TrimStart(spaces + text) == text
  {
    if spaces == "" {
      assert spaces + text == text;
    } else {
      TrimSpaces(spaces[1..], text);
      assert (spaces + text)[1..] == spaces[1..] + text;
    }
  }

  lemma {:induction false} LeadingName(name: string, after: string)
    requires (forall c <- name :: !IsSpace(c)) && (after == "" || IsSpace(after[0]))
    ensures LeadingWord(name + after) == name
  {
    if name == "" {
      assert name + after == after;
    } else {
      LeadingName(name[1..], after);
      assert (name + after)[1..] == name[1..] + after;
    }
  }

  /** The header of a command: leading white space, its name and the white space before its arguments. */
  lemma {:induction false} ParseNamed(letter: char -> bool, lead: string, name: string, gap: string, rawArgs: string)
    requires (forall c <- lead :: IsSpace(c)) && (forall c <- gap :: IsSpace(c)) && IsName(name)
    requires if rawArgs == "" then true else gap != "" && !IsSpace(rawArgs[0])
    ensures ParseCommand(letter, lead + (name + (gap + rawArgs))) ==
            match Scan(letter, rawArgs, START)
            case Refused(reason) => Rejected(reason, name)
            case Done(args) => Parsed(name, rawArgs, args)
  {
    var after := gap + rawArgs;
    forall c | c in name ensures !IsSpace(c) {
      var i :| 0 <= i < |name| && name[i] == c;
    }
    assert after != "" ==> after[0] in gap;
    TrimSpaces(lead, name + after);
    LeadingName(name, after);
    assert (name + after)[|name|..] == after;
    TrimSpaces(gap, rawArgs);
  }

  /**
   * Parsing inverts printing: for every command name and every list of arguments, each written in double quotes, in
   * single quotes or bare with escapes, and separated by any white space, the arguments come back exactly.
   */
  lemma {:induction false} ParseInvertsPrint(letter: char -> bool, lead: string, name: string, gap: string, items: seq<Item>)
    requires IsLetterClass(letter) && IsName(name) && Printable(items)
    requires (forall c <- lead :: IsSpace(c)) && (forall c <- gap :: IsSpace(c)) && (items == [] || gap != "")
    ensures ParseCommand(letter, lead + (name + (gap + Line(items)))) == Parsed(name, Line(items), ArgsOf(items))
  {
    ScanLine(letter, items, []);
    AlikeScan(letter, Line(items), START, Between([]));
    assert [] + ArgsOf(items) == ArgsOf(items);
    if items != [] {
      LineStartsWord(items);
    }
    ParseNamed(letter, lead, name, gap, Line(items));
  }

  lemma {:induction false} LineStartsWord(items: seq<Item>)
    requires items != [] && Printable(items)
    ensures Line(items) != "" && !IsSpace(Line(items)[0])
  {
    var item := items[0];
    assert Quote(item.style, item.arg) != "";
    assert Line(items)[0] == Quote(item.style, item.arg)[0];
  }

  // ----- plain text -----

  /** The maximal runs of characters that are not white space. */
  function Words(text: string): seq<string>
    decreases |text|
  {
    if text == "" then []
    else if IsSpace(text[0]) then Words(text[1..])
    else [LeadingWord(text)] + Words(text[|LeadingWord(text)|..])
  }

  /** No double quotes and no backslashes, and apostrophes only after another character of their word. */
  ghost predicate IsPlain(text: string, inWord: bool) {
    && (forall i | 0 <= i < |text| :: text[i] != '"' && text[i] != '\\')
    && (text != "" && text[0] == '\'' ==> inWord)
    && (forall i | 0 <= i < |text| - 1 && text[i + 1] == '\'' :: !IsSpace(text[i]))
  }

  /** A plain character continues or starts a word, or ends it when it is white space. */
  lemma {:induction false} PlainStep(letter: char -> bool, text: string, state: State)
    requires text != "" && state.quote.None? && !state.adjacent && (!state.started ==> state.current == "")
    requires IsPlain(text, state.started)
    ensures Scan(letter, text, state) == Scan(letter, text[1..], AfterPlain(text[0], state))
    ensures IsPlain(text[1..], AfterPlain(text[0], state).started)
  {
    assert text[0] != '"' && text[0] != '\\' && (text[0] == '\'' ==> state.started);
    assert Step(letter, text, state) == AfterPlain(text[0], state);
  }

  function AfterPlain(c: char, state: State): State {
    if !IsSpace(c) then state.(current := state.current + [c], started := true)
    else if state.started then state.(args := state.args + [state.current], current := "", started := false)
    else state
  }

  /** The arguments a plain text adds to a word in progress, or to none. */
  function PlainArgs(text: string, state: State): seq<string> {
    if state.started then
      state.args + [state.current + LeadingWord(text)] + Words(text[|LeadingWord(text)|..])
    else state.args + Words(text)
  }

  lemma {:induction false} PlainArgsStep(text: string, state: State)
    requires text != "" && (!state.started ==> state.current == "")
    ensures PlainArgs(text, state) == PlainArgs(text[1..], AfterPlain(text[0], state))
  {
    hide IsSpace;
    var c, rest := text[0], text[1..];
    if IsSpace(c) {
      assert LeadingWord(text) == "" && text[0..] == text;
      assert state.current + "" == state.current;
    } else {
      LeadingWordStep(text);
      assert (state.current + [c]) + LeadingWord(rest) == state.current + LeadingWord(text);
      if !state.started {
        assert state.current + LeadingWord(text) == LeadingWord(text);
        assert Words(text) == [LeadingWord(text)] + Words(text[|LeadingWord(text)|..]);
        assert state.args + ([LeadingWord(text)] + Words(text[|LeadingWord(text)|..])) ==
               state.args + [LeadingWord(text)] + Words(text[|LeadingWord(text)|..]);
      }
    }
  }

  lemma {:induction false} LeadingWordStep(text: string)
    requires text != "" && !IsSpace(text[0])
    ensures LeadingWord(text) == [text[0]] + LeadingWord(text[1..])
    ensures text[|LeadingWord(text)|..] == text[1..][|LeadingWord(text[1..])|..]
  {
  }

  lemma {:induction false} ScanPlain(letter: char -> bool, text: string, state: State)
    requires state.quote.None? && !state.adjacent && (!state.started ==> state.current == "")
    requires IsPlain(text, state.started)
    ensures Scan(letter, text, state) == Done(PlainArgs(text, state))
    decreases |text|
  {
    if text == "" {
      assert state.current + "" == state.current;
      assert state.args + [] == state.args;
    } else {
      hide Scan, PlainArgs, IsPlain;
      PlainStep(letter, text, state);
      PlainArgsStep(text, state);
      ScanPlain(letter, text[1..], AfterPlain(text[0], state));
    }
  }

  /** On text without quotes at the start of words or escapes, splitting is white-space splitting. */
  lemma {:induction false} PlainIsWhitespaceSplit(letter: char -> bool, text: string)
    requires IsPlain(text, false)
    ensures Scan(letter, text, START) == Done(Words(text))
  {
    AlikeScan(letter, text, START, Between([]));
    ScanPlain(letter, text, Between([]));
    assert [] + Words(text) == Words(text);
  }

  // ----- rejections -----

  function TrailingBackslashes(text: string): (count: nat)
    ensures count <= |text|
  {
    if text == "" || text[|text| - 1] != '\\' then 0 else 1 + TrailingBackslashes(text[..|text| - 1])
  }

  lemma {:induction false} TrailingAfterFirst(text: string)
    requires text != ""
    ensures TrailingBackslashes(text) ==
            if text[0] == '\\' && TrailingBackslashes(text[1..]) == |text| - 1 then |text|
            else TrailingBackslashes(text[1..])
  {
    if |text| > 1 && text[|text| - 1] == '\\' {
      TrailingAfterFirst(text[..|text| - 1]);
      assert text[..|text| - 1][1..] == text[1..][..|text| - 2];
    }
  }

  /** A backslash has nothing to escape exactly when the text ends in an odd number of them, in quotes or not. */
  lemma {:induction false} DanglingIsOdd(letter: char -> bool, text: string, state: State)
    ensures Scan(letter, text, state) == Refused(DanglingBackslash) <==> TrailingBackslashes(text) % 2 == 1
    decreases |text|
  {
    hide Step;
    if text != "" {
      TrailingAfterFirst(text);
      if text[0] != '\\' {
        DanglingIsOdd(letter, text[1..], Step(letter, text, state));
      } else if |text| > 1 {
        TrailingAfterFirst(text[1..]);
        assert text[1..][1..] == text[2..];
        DanglingIsOdd(letter, text[2..], Escaped(text[1], state));
      }
    }
  }

  /** A span that opens and never closes is refused for the quote that opened it. */
  lemma {:induction false} UnclosedSpan(letter: char -> bool, quote: char, arg: string, state: State)
    requires quote == '"' || quote == '\''
    requires state.quote == Some(quote) && !state.heldApostrophe
    ensures Scan(letter, Escape(arg, {quote, '\\'}), state) ==
            Refused(if quote == '"' then UnclosedDouble else UnclosedSingle)
    decreases |arg|
  {
    if arg != "" {
      var text := Escape(arg, {quote, '\\'});
      var rest := Escape(arg[1..], {quote, '\\'});
      if arg[0] in {quote, '\\'} {
        assert text[2..] == rest;
        UnclosedSpan(letter, quote, arg[1..], Escaped(arg[0], state));
      } else {
        assert text[1..] == rest;
        if quote == '"' {
          UnclosedDoubleSpan(letter, arg[1..], Step(letter, text, state));
        } else {
          UnclosedSpan(letter, quote, arg[1..], Step(letter, text, state));
        }
      }
    }
  }

  lemma {:induction false} UnclosedDoubleSpan(letter: char -> bool, arg: string, state: State)
    requires state.quote == Some('"')
    ensures Scan(letter, Escape(arg, {'"', '\\'}), state) == Refused(UnclosedDouble)
    decreases |arg|
  {
    if arg != "" {
      var text := Escape(arg, {'"', '\\'});
      var rest := Escape(arg[1..], {'"', '\\'});
      if arg[0] in {'"', '\\'} {
        assert text[2..] == rest;
        UnclosedDoubleSpan(letter, arg[1..], Escaped(arg[0], state));
      } else {
        assert text[1..] == rest;
        UnclosedDoubleSpan(letter, arg[1..], Step(letter, text, state));
      }
    }
  }

  /** An apostrophe before a letter does not close a single-quoted span, and the refusal says so. */
  lemma {:induction false} HeldApostrophe(letter: char -> bool, before: string, c: char, after: string, state: State)
    requires letter(c) && c !in {'\'', '\\'} && state.quote == Some('\'')
    ensures Scan(letter, Escape(before, {'\'', '\\'}) + ['\'', c] + Escape(after, {'\'', '\\'}), state) ==
            Refused(UnclosedSingleHeldApostrophe)
    decreases |before|
  {
    var tail := Escape(after, {'\'', '\\'});
    var text := Escape(before, {'\'', '\\'}) + ['\'', c] + tail;
    if before == "" {
      assert text == ['\'', c] + tail && text[1..] == [c] + tail && text[1..][1..] == tail;
      var held := Step(letter, text, state);
      UnclosedHeld(letter, after, Step(letter, text[1..], held));
    } else {
      var rest := Escape(before[1..], {'\'', '\\'}) + ['\'', c] + tail;
      if before[0] in {'\'', '\\'} {
        assert text[2..] == rest;
        HeldApostrophe(letter, before[1..], c, after, Escaped(before[0], state));
      } else {
        assert text[1..] == rest;
        HeldApostrophe(letter, before[1..], c, after, Step(letter, text, state));
      }
    }
  }

  lemma {:induction false} UnclosedHeld(letter: char -> bool, arg: string, state: State)
    requires state.quote == Some('\'') && state.heldApostrophe
    ensures Scan(letter, Escape(arg, {'\'', '\\'}), state) == Refused(UnclosedSingleHeldApostrophe)
    decreases |arg|
  {
    if arg != "" {
      var text := Escape(arg, {'\'', '\\'});
      var rest := Escape(arg[1..], {'\'', '\\'});
      if arg[0] in {'\'', '\\'} {
        assert text[2..] == rest;
        UnclosedHeld(letter, arg[1..], Escaped(arg[0], state));
      } else {
        assert text[1..] == rest;
        UnclosedHeld(letter, arg[1..], Step(letter, text, state));
      }
    }
  }
}
