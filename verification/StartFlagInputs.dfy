/**
 Inputs on which the start-flag checks do not do what one would expect (src/utils/node.ts).
*/
module StartFlagInputs {
  import opened Sequences
  import opened StartFlags

  // ----- Texts put together -----

  ghost predicate IsLowerWord(w: string) {
    w != "" && forall i :: 0 <= i < |w| ==> IsLower(w[i])
  }

  lemma {:induction false} LowerWordIsKebab(w: string)
    requires IsLowerWord(w)
    ensures IsKebab(w)
  {
    assert IsLower(w[0]);
    if |w| == 1 {
    } else {
      LowerWordIsKebab(w[1..]);
    }
  }

  lemma {:induction false} KebabJoin(w: string, rest: string)
    requires IsLowerWord(w) && IsKebab(rest)
    ensures IsKebab(w + "-" + rest)
  {
    var s := w + "-" + rest;
    assert s[0] == w[0] && IsLower(w[0]);
    if |w| == 1 {
      assert s[1] == '-' && s[2..] == rest;
    } else {
      assert s[1..] == w[1..] + "-" + rest;
      KebabJoin(w[1..], rest);
    }
  }

  /** A long flag that is not like the network flag. */
  lemma LongFlag(name: string)
    requires IsKebab(name) && name[0] != 'n'
    ensures IsFlag("--" + name) && !IsNetworkFlag("--" + name)
  {
    var t := "--" + name;
    assert t[2..] == name && t[..2] == "--";
    assert t[1] == '-' && t[2] == name[0];
  }

  lemma EndsWithItself(s: string, t: string)
    ensures EndsWith(s + t, t)
  {
    assert (s + t)[|s|..] == t;
  }

  lemma TrimBlank(s: string)
    requires s != "" && s[|s| - 1] != ' '
    ensures TrimEnd(s) == s && TrimEnd(s + " ") == s
  {
    assert (s + " ")[..|s|] == s;
  }

  ghost predicate IsName(name: string) {
    name != "" && forall i :: 0 <= i < |name| ==> !EndsName(name[i])
  }

  lemma {:induction false} NameLengthIs(name: string, rest: string)
    requires (forall i :: 0 <= i < |name| ==> !EndsName(name[i])) && (rest == "" || EndsName(rest[0]))
    ensures NameLength(name + rest) == |name|
  {
    if name == "" {
      assert name + rest == rest;
    } else {
      assert (name + rest)[1..] == name[1..] + rest;
      assert !EndsName(name[0]);
      NameLengthIs(name[1..], rest);
    }
  }

  /** A comma or blank ends a word. */
  lemma {:induction false} AfterWordIs(w: string, rest: string)
    requires forall i :: 0 <= i < |w| ==> w[i] != ',' && w[i] != ' '
    ensures AfterWord(w + rest) == AfterWord(rest)
  {
    if w == "" {
      assert w + rest == rest;
    } else {
      assert (w + rest)[1..] == w[1..] + rest;
      assert w[0] != ',' && w[0] != ' ';
      AfterWordIs(w[1..], rest);
    }
  }

  /** A line of one name, and a placeholder or not, and a blank or not, declares the name. */
  lemma NamesOfLine(name: string, placeholder: string, blank: string)
    requires IsName(name) && (placeholder == "" || placeholder[0] == '=') && (blank == "" || blank == " ")
    requires forall i :: 0 <= i < |placeholder| ==> placeholder[i] != ',' && placeholder[i] != ' '
    ensures Names(name + placeholder + blank) == [name]
  {
    var rest := placeholder + blank;
    assert name + placeholder + blank == name + rest;
    NameLengthIs(name, rest);
    AfterWordIs(name, rest);
    AfterWordIs(placeholder, blank);
    assert " "[1..] == "";
    assert (name + rest)[..|name|] == name;
    assert Names("") == [];
  }

  /** A line that begins with the flag is the one found. */
  lemma OnlyLine(line: string, flag: string)
    requires flag <= line && flag != "" && flag[0] == '-'
    ensures FindFlag([line], flag) == Some(line)
    ensures Names(line) == [flag] ==> FindDeclaration([line], flag) == Some(line)
  {
  }

  // ----- A flag and its value -----

  /**
   A flag with a value is accepted exactly when the first line that contains the flag is some
   text followed by a placeholder.
  */
  lemma FlagWithValueIsAcceptedIff(allowed: seq<string>, flag: string, i: nat, value: string)
    requires MatchesPattern(flag) && NoSeparator(flag) && FirstIncluding(allowed, flag, i) && IsWord(value)
    ensures Valid(allowed, flag + " " + value) <==>
      exists text: string :: allowed[i] == text + "=<option>" || allowed[i] == text + "=<value>"
  {
    FindFlagIs(allowed, flag);
    forall j: nat | FirstIncluding(allowed, flag, j) ensures j == i { if j < i {} else if i < j {} }
    assert FindFlag(allowed, flag) == Some(allowed[i]) by { assert allowed[i] in allowed; }
    WantsValueIs(allowed[i]);
    FlagAndValue(allowed, flag, value);
  }

  /** The line of a flag with a short name, a long name and a value: "-l, --log=<option>". */
  function TwoNames(short: string, long: string, placeholder: string): string {
    short + ", " + long + placeholder
  }

  predicate IsPlaceholder(s: string) {
    s == "=<option>" || s == "=<value>"
  }

  lemma NamesOfTwoNames(short: string, long: string, placeholder: string)
    requires IsName(short) && IsName(long) && IsPlaceholder(placeholder)
    ensures Names(TwoNames(short, long, placeholder)) == [short, "", long]
  {
    var line := TwoNames(short, long, placeholder);
    var last := long + placeholder;
    NamesOfLine(long, placeholder, "");
    assert long + placeholder + "" == last;
    var afterComma := " " + last;
    assert line == short + ("," + afterComma);
    assert ("," + afterComma)[1..] == afterComma && afterComma[1..] == last;
    NameLengthIs(short, "," + afterComma);
    AfterWordIs(short, "," + afterComma);
    assert line[..|short|] == short;
    assert AfterWord(line) == afterComma && NameLength(afterComma) == 0 && AfterWord(afterComma) == last;
    assert Names(afterComma) == [""] + Names(last);
  }

  lemma NamesOccur(short: string, long: string, placeholder: string)
    ensures var line := TwoNames(short, long, placeholder);
      Includes(line, short) && Includes(line, long) && EndsWith(line, placeholder)
  {
    var line := TwoNames(short, long, placeholder);
    var before, after := short + ", ", ", " + long + placeholder;
    assert line == "" + short + after && line == before + long + placeholder;
    IncludesIs(line, short);
    IncludesIs(line, long);
    EndsWithItself(short + ", " + long, placeholder);
  }

  /** Either name of such a line is read as declared, and takes the value. */
  lemma KindOfListed(line: string, flag: string, placeholder: string)
    requires MatchesPattern(flag) && Includes(line, flag) && flag in Names(line) && flag[0] == '-'
    requires IsPlaceholder(placeholder) && EndsWith(line, placeholder)
    ensures KindOf([line], flag) == DeclaredKind([line], flag) == ValueFlag
  {
    WantsValueIff(line);
    assert WantsValue(line);
  }

  lemma ListedNameIsAccepted(line: string, flag: string, placeholder: string, value: string)
    requires MatchesPattern(flag) && Includes(line, flag) && flag in Names(line) && flag[0] == '-' && NoSeparator(flag)
    requires IsPlaceholder(placeholder) && EndsWith(line, placeholder) && IsWord(value)
    ensures Valid([line], flag + " " + value) && IsDeclaredCommand([line], flag + " " + value)
  {
    KindOfListed(line, flag, placeholder);
    FlagAndValue([line], flag, value);
  }

  /** The long and the short form of a listed flag are accepted with a value, as the line declares. */
  lemma ListedFlagIsAccepted(short: string, long: string, placeholder: string, value: string)
    requires MatchesPattern(short) && IsName(short) && NoSeparator(short)
    requires MatchesPattern(long) && IsName(long) && NoSeparator(long)
    requires IsPlaceholder(placeholder) && IsWord(value)
    ensures var lines := [TwoNames(short, long, placeholder)];
      && Valid(lines, long + " " + value) && IsDeclaredCommand(lines, long + " " + value)
      && Valid(lines, short + " " + value) && IsDeclaredCommand(lines, short + " " + value)
  {
    var line := TwoNames(short, long, placeholder);
    NamesOfTwoNames(short, long, placeholder);
    NamesOccur(short, long, placeholder);
    ListedNameIsAccepted(line, short, placeholder, value);
    ListedNameIsAccepted(line, long, placeholder, value);
  }

  const SHORT_LOG := "-l"
  const LONG_LOG := "--log"
  const OPTION := "=<option>"
  const DEBUG_LEVEL := "debug"

  /** `--log debug` and `-l debug` with the line "-l, --log=<option>". */
  lemma LogOptionIsAccepted()
    ensures var lines := [TwoNames(SHORT_LOG, LONG_LOG, OPTION)];
      && Valid(lines, LONG_LOG + " " + DEBUG_LEVEL) && IsDeclaredCommand(lines, LONG_LOG + " " + DEBUG_LEVEL)
      && Valid(lines, SHORT_LOG + " " + DEBUG_LEVEL) && IsDeclaredCommand(lines, SHORT_LOG + " " + DEBUG_LEVEL)
  {
    LowerWordIsKebab("log");
    LongFlag("log");
    assert LONG_LOG == "--" + "log";
    ListedFlagIsAccepted(SHORT_LOG, LONG_LOG, OPTION, DEBUG_LEVEL);
  }

  const SHORT_CONFIG := "-c"
  const VALUE := "=<value>"
  const CONFIG_FILE := "./config.json"

  lemma ConfigIsFlag()
    ensures MatchesPattern(CONFIG) && IsName(CONFIG) && NoSeparator(CONFIG)
  {
    LowerWordIsKebab("config");
    LongFlag("config");
    assert CONFIG == "--" + "config";
  }

  /** `--config ./config.json` and `-c ./config.json` with the line "-c, --config=<value>". */
  lemma ConfigValueIsAccepted()
    ensures var lines := [TwoNames(SHORT_CONFIG, CONFIG, VALUE)];
      && Valid(lines, CONFIG + " " + CONFIG_FILE) && IsDeclaredCommand(lines, CONFIG + " " + CONFIG_FILE)
      && Valid(lines, SHORT_CONFIG + " " + CONFIG_FILE) && IsDeclaredCommand(lines, SHORT_CONFIG + " " + CONFIG_FILE)
  {
    ConfigIsFlag();
    ListedFlagIsAccepted(SHORT_CONFIG, CONFIG, VALUE, CONFIG_FILE);
  }

  // ----- A blank after the placeholder -----

  /** The line of a flag that takes a value, with the blank that `cut` leaves behind it. */
  function BlankedLine(flag: string): string {
    flag + "=<value>" + " "
  }

  /** Such a flag is declared to take a value and classified as taking none. */
  lemma BlankHidesPlaceholder(flag: string)
    requires IsFlag(flag) && !IsNetworkFlag(flag) && IsName(flag)
    ensures DeclaredKind([BlankedLine(flag)], flag) == ValueFlag && KindOf([BlankedLine(flag)], flag) == PlainFlag
  {
    var line := BlankedLine(flag);
    var text := flag + "=<value>";
    NamesOfLine(flag, "=<value>", " ");
    assert line[..|flag|] == flag;
    OnlyLine(line, flag);
    EndsWithItself(flag, "=<value>");
    assert text[|text| - 1] == "=<value>"[7];
    TrimBlank(text);
    WantsValueIff(line);
  }

  /** Giving it its value is a declared command that ends in a value, and rejected. */
  lemma BlankedFlagWithValueIsRejected(flag: string, value: string)
    requires IsFlag(flag) && !IsNetworkFlag(flag) && IsName(flag) && NoSeparator(flag)
    requires IsWord(value)
    ensures IsDeclaredCommand([BlankedLine(flag)], flag + " " + value)
    ensures !Valid([BlankedLine(flag)], flag + " " + value)
  {
    BlankHidesPlaceholder(flag);
    FlagAndValue([BlankedLine(flag)], flag, value);
  }

  /** A long flag of two words. */
  lemma TwoWordFlag(flag: string, first: string, second: string)
    requires IsLowerWord(first) && IsLowerWord(second) && first[0] != 'n'
    requires flag == "--" + (first + "-" + second)
    ensures IsFlag(flag) && !IsNetworkFlag(flag)
  {
    LowerWordIsKebab(second);
    KebabJoin(first, second);
    LongFlag(first + "-" + second);
  }

  const API_HOST := "--api-host"
  const ANY_HOST := "0.0.0.0"

  lemma ApiHostIsFlag()
    ensures IsFlag(API_HOST) && !IsNetworkFlag(API_HOST) && IsName(API_HOST) && NoSeparator(API_HOST)
  {
    TwoWordFlag(API_HOST, "api", "host");
  }

  lemma AnyHostIsWord()
    ensures IsWord(ANY_HOST)
  {
  }

  /** `--api-host 0.0.0.0` with the line "--api-host=<value> ". */
  lemma ApiHostWithValueIsRejected()
    ensures IsDeclaredCommand([BlankedLine(API_HOST)], API_HOST + " " + ANY_HOST)
    ensures !Valid([BlankedLine(API_HOST)], API_HOST + " " + ANY_HOST)
  {
    ApiHostIsFlag();
    AnyHostIsWord();
    BlankedFlagWithValueIsRejected(API_HOST, ANY_HOST);
  }

  // ----- A name contained in another -----

  const API := "--api"
  const API_WS := "--api-ws"
  const CONFIG := "--config"

  lemma ApiIsFlag()
    ensures IsFlag(API) && !IsNetworkFlag(API)
  {
    LowerWordIsKebab("api");
    LongFlag("api");
    assert API == "--" + "api";
  }

  /** A flag contained in the name of another, but declared by no line, counts as known. */
  lemma ContainedFlagCountsAsKnown(flag: string, longer: string, other: string)
    requires IsFlag(flag) && !IsNetworkFlag(flag) && flag < longer && flag != other
    requires IsName(longer) && IsName(other) && longer[|longer| - 1] != '>'
    ensures KindOf([longer, other + "=<value>"], flag) == PlainFlag
    ensures DeclaredKind([longer, other + "=<value>"], flag) == UnknownFlag
  {
    var line := other + "=<value>";
    NamesOfLine(longer, "", "");
    assert longer + "" + "" == longer;
    NamesOfLine(other, "=<value>", "");
    assert other + "=<value>" + "" == line;
    assert flag !in [longer] && flag !in [other];
    assert [longer, line][1..] == [line] && [line][1..] == [];
    assert FindDeclaration([line], flag) == None;
    if WantsValue(longer) { PlaceholderEndsInAngle(longer); }
  }

  /** "--api" occurs in the line of "--api-ws", so it counts as known, though no line declares it. */
  lemma UndeclaredFlagCountsAsKnown()
    ensures KindOf([API_WS, CONFIG + "=<value>"], API) == PlainFlag
    ensures DeclaredKind([API_WS, CONFIG + "=<value>"], API) == UnknownFlag
  {
    ApiIsFlag();
    ContainedFlagCountsAsKnown(API, API_WS, CONFIG);
  }

  // ----- A name the patterns do not see -----

  /** A flag whose name the patterns do not see, or take for the network flag, cannot be used. */
  lemma UnseenFlagWithValueIsRejected(flag: string, value: string)
    requires IsName(flag) && flag[0] == '-' && NoSeparator(flag)
    requires !MatchesPattern(flag) && !IsNetworkName(flag)
    requires IsWord(value)
    ensures IsDeclaredCommand([flag + "=<value>"], flag + " " + value)
    ensures !Valid([flag + "=<value>"], flag + " " + value)
  {
    var line := flag + "=<value>";
    NamesOfLine(flag, "=<value>", "");
    assert flag + "=<value>" + "" == line;
    assert line[..|flag|] == flag;
    OnlyLine(line, flag);
    EndsWithItself(flag, "=<value>");
    assert line[|line| - 1] == "=<value>"[7];
    TrimBlank(line);
    FlagAndValue([line], flag, value);
  }

  lemma {:induction false} KebabLetters(s: string)
    requires IsKebab(s)
    ensures forall i :: 0 <= i < |s| ==> IsLower(s[i]) || s[i] == '-'
  {
    if |s| == 1 {
    } else if IsKebab(s[1..]) {
      KebabLetters(s[1..]);
    } else {
      KebabLetters(s[2..]);
    }
  }

  /** A long name with any other character in it, say a digit, is not seen. */
  lemma OtherLetterIsUnseen(flag: string, i: nat)
    requires "--" <= flag && 2 <= i < |flag| && !IsLower(flag[i]) && flag[i] != '-'
    ensures !IsFlag(flag)
  {
    assert flag[1] == '-';
    assert flag[2..][i - 2] == flag[i];
    if IsKebab(flag[2..]) { KebabLetters(flag[2..]); }
  }

  const P2P_PORT := "--p2p-port"
  const ANY_PORT := "5000"

  /** `--p2p-port 5000` with the line "--p2p-port=<value>": the pattern has no digits. */
  lemma P2pPortWithValueIsRejected()
    ensures IsDeclaredCommand([P2P_PORT + "=<value>"], P2P_PORT + " " + ANY_PORT)
    ensures !Valid([P2P_PORT + "=<value>"], P2P_PORT + " " + ANY_PORT)
  {
    OtherLetterIsUnseen(P2P_PORT, 3);
    UnseenFlagWithValueIsRejected(P2P_PORT, ANY_PORT);
  }

  /** A line of one name and nothing else. */
  lemma BareLine(line: string)
    requires IsName(line) && line[|line| - 1] != '>'
    ensures Names(line) == [line] && !DeclaresValue(line)
  {
    NamesOfLine(line, "", "");
    assert line + "" + "" == line;
    assert !EndsName(line[|line| - 1]);
    TrimBlank(line);
    if WantsValue(line) { PlaceholderEndsInAngle(line); }
  }

  /** Three lines with a name each: which line declares a name. */
  lemma ThreeLines(first: string, flag: string, unseen: string)
    requires flag != "" && flag[0] == '-' && Names(flag) == [flag] && flag !in Names(first)
    requires unseen != "" && unseen[0] == '-' && Names(unseen) == [unseen] && unseen !in Names(first) && unseen != flag
    ensures FindDeclaration([first, flag, unseen], flag) == Some(flag)
    ensures FindDeclaration([first, flag, unseen], unseen) == Some(unseen)
  {
    assert [first, flag, unseen][1..] == [flag, unseen] && [flag, unseen][1..] == [unseen];
    assert FindDeclaration([unseen], unseen) == Some(unseen);
    assert FindDeclaration([flag, unseen], unseen) == Some(unseen);
    assert FindDeclaration([flag, unseen], flag) == Some(flag);
  }

  /** A flag found in the first line, and one the patterns do not see. */
  lemma KindsOfPair(flag: string, longer: string, unseen: string)
    requires MatchesPattern(flag) && flag < longer && IsName(flag) && IsName(longer) && flag[|flag| - 1] != '>'
    requires IsName(unseen) && unseen[0] == '-' && unseen[|unseen| - 1] != '>'
    requires !IsFlag(unseen) && !IsNetworkFlag(unseen) && unseen != longer
    ensures var lines := [longer + "=<value>", flag, unseen];
      && KindOf(lines, flag) == ValueFlag && DeclaredKind(lines, flag) == PlainFlag
      && KindOf(lines, unseen) == Word && DeclaredKind(lines, unseen) == PlainFlag
  {
    var first := longer + "=<value>";
    NamesOfLine(longer, "=<value>", "");
    assert longer + "=<value>" + "" == first;
    BareLine(flag);
    BareLine(unseen);
    EndsWithItself(longer, "=<value>");
    assert flag !in [longer] && unseen !in [longer] && unseen !in [flag];
    ThreeLines(first, flag, unseen);
    assert flag <= first;
  }

  const LOG_FILE := "--log-file"
  const DEPTH := "--3d"

  /**
   The other way round: two declared flags without values, of which the first is found in the
   line of a flag that takes one and the second is not seen, pass for a flag and its value.
  */
  lemma MisreadPairIsAccepted(flag: string, longer: string, unseen: string)
    requires MatchesPattern(flag) && flag < longer && IsName(flag) && IsName(longer) && flag[|flag| - 1] != '>'
    requires IsName(unseen) && unseen[0] == '-' && unseen[|unseen| - 1] != '>'
    requires !IsFlag(unseen) && !IsNetworkFlag(unseen) && unseen != longer
    requires NoSeparator(flag) && NoSeparator(unseen)
    ensures var lines := [longer + "=<value>", flag, unseen];
      Valid(lines, flag + " " + unseen) && DeclaredKinds(lines, Split(flag + " " + unseen)) == [PlainFlag, PlainFlag]
  {
    var lines := [longer + "=<value>", flag, unseen];
    var input := flag + " " + unseen;
    KindsOfPair(flag, longer, unseen);
    SplitOne(unseen);
    SplitCons(flag, ' ', unseen);
    assert DeclaredKinds(lines, Split(input)) == [PlainFlag, PlainFlag];
    TwoKinds(ValueFlag);
    ReadTokens(lines, input, [flag, unseen], [ValueFlag, Word], [PlainFlag, PlainFlag]);
  }

  /** `--log --3d` with the lines "--log-file=<value>", "--log" and "--3d". */
  lemma LogDepthIsAccepted()
    ensures var lines := [LOG_FILE + "=<value>", LONG_LOG, DEPTH];
      && Valid(lines, LONG_LOG + " " + DEPTH)
      && DeclaredKinds(lines, Split(LONG_LOG + " " + DEPTH)) == [PlainFlag, PlainFlag]
  {
    LowerWordIsKebab("log");
    LongFlag("log");
    assert LONG_LOG == "--" + "log";
    OtherLetterIsUnseen(DEPTH, 2);
    MisreadPairIsAccepted(LONG_LOG, LOG_FILE, DEPTH);
  }

  // ----- A flag at the end, and a separator at the end -----

  /** A flag that takes no value, alone: a declared command, rejected. */
  lemma PlainFlagAloneIsRejected(flag: string)
    requires IsFlag(flag) && !IsNetworkFlag(flag) && IsName(flag) && NoSeparator(flag) && flag[|flag| - 1] != '>'
    ensures IsCommand(DeclaredKinds([flag + " "], Split(flag))) && !Valid([flag + " "], flag)
  {
    var line := flag + " ";
    NamesOfLine(flag, "", " ");
    assert flag + "" + " " == line;
    assert line[..|flag|] == flag;
    OnlyLine(line, flag);
    assert !EndsName(flag[|flag| - 1]);
    TrimBlank(flag);
    if WantsValue(flag) { PlaceholderEndsInAngle(flag); }
    WantsValueIff(line);
    SplitOne(flag);
    LonePlainFlagIsRejected([line], flag);
  }

  /** `--api-ws` alone, with the line "--api-ws ". */
  lemma ApiWsAloneIsRejected()
    ensures IsCommand(DeclaredKinds([API_WS + " "], Split(API_WS))) && !Valid([API_WS + " "], API_WS)
  {
    TwoWordFlag(API_WS, "api", "ws");
    PlainFlagAloneIsRejected(API_WS);
  }

  lemma KindOnItsLine(flag: string)
    requires IsFlag(flag) && !IsNetworkFlag(flag)
    ensures KindOf([flag + "=<value>"], flag) == ValueFlag
  {
    var line := flag + "=<value>";
    assert line[..|flag|] == flag;
    OnlyLine(line, flag);
    EndsWithItself(flag, "=<value>");
  }

  /** A flag that takes a value, followed by a separator and nothing: accepted. */
  lemma TrailingSeparatorIsAccepted(flag: string)
    requires IsFlag(flag) && !IsNetworkFlag(flag) && NoSeparator(flag)
    ensures Valid([flag + "=<value>"], flag + "=") && Split(flag + "=") == [flag, ""]
  {
    var line, nothing := flag + "=<value>", "";
    SplitOne(nothing);
    SplitCons(flag, '=', nothing);
    assert flag + "=" + nothing == flag + "=";
    KindOnItsLine(flag);
    TwoKinds(ValueFlag);
    assert Kinds([line], [flag, nothing]) == [ValueFlag, Word];
  }

  /** `--config=` with the line "--config=<value>". */
  lemma ConfigWithoutValueIsAccepted()
    ensures Valid([CONFIG + "=<value>"], CONFIG + "=") && Split(CONFIG + "=") == [CONFIG, ""]
  {
    ConfigIsFlag();
    TrailingSeparatorIsAccepted(CONFIG);
  }

  // ----- Answers that never pass -----

  /** Empty answers: no error, and the command is the base alone. */
  method AskInVain(baseStartCommand: string, allowed: seq<string>) returns (r: Resolved, prompts: nat)
    ensures r == StartWith(baseStartCommand) && prompts == 4
  {
    var answers := (i: nat) => "";
    assert !Valid(allowed, "") by {
      SplitOne("");
      assert Kinds(allowed, [""])[0] == Word;
    }
    FirstPassingIs(Passes(allowed, answers), 0, 3);
    r, prompts := AskForFlags(baseStartCommand, allowed, answers);
  }
}
