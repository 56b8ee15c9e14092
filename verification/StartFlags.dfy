/**
 The start command of Lisk Core v4 (src/utils/node.ts:43-48, 106-142 and 144-196): splitting
 and checking the flags a user types, and the loop that asks again.
*/
module StartFlags {
  import opened Sequences

  // ----- Tokens -----

  /** `[\s=]` */
  predicate IsSeparator(c: char) {
    var u := c as int;
    || c == '=' || 9 <= u <= 13 || u == 32 || u == 0xA0 || u == 0x1680 || 0x2000 <= u <= 0x200A
    || u == 0x2028 || u == 0x2029 || u == 0x202F || u == 0x205F || u == 0x3000 || u == 0xFEFF
  }

  /** White space and line terminators (sections 12.2, 12.3 and 22.2.2.9 of ECMA-262, 2023 edition). */
  const WHITE_SPACE: set<int> := {
    9, 10, 11, 12, 13, 0x20, 0xA0, 0x1680, 0x2000, 0x2001, 0x2002, 0x2003, 0x2004, 0x2005, 0x2006, 0x2007, 0x2008,
    0x2009, 0x200A, 0x2028, 0x2029, 0x202F, 0x205F, 0x3000, 0xFEFF
  }

  lemma SeparatorIs(c: char)
    ensures IsSeparator(c) <==> c == '=' || c as int in WHITE_SPACE
  {
  }

  function WordLength(s: string): (n: nat)
    ensures n <= |s|
  {
    if s == "" || IsSeparator(s[0]) then 0 else 1 + WordLength(s[1..])
  }

  function GapLength(s: string): (n: nat)
    ensures n <= |s|
    ensures s != "" && IsSeparator(s[0]) ==> n > 0
  {
    if s == "" || !IsSeparator(s[0]) then 0 else 1 + GapLength(s[1..])
  }

  /** `input.split(/[\s=]+/)`: the pieces between runs of separators, empty ones at the ends kept. */
  function Split(s: string): (tokens: seq<string>)
    ensures tokens != []
    decreases |s|
  {
    var n := WordLength(s);
    if n == |s| then [s]
    else
      SplitStops(s);
      [s[..n]] + Split(s[n + GapLength(s[n..])..])
  }

  lemma {:induction false} SplitStops(s: string)
    ensures WordLength(s) < |s| ==> IsSeparator(s[WordLength(s)])
    ensures forall i :: 0 <= i < WordLength(s) ==> !IsSeparator(s[i])
  {
    if s == "" || IsSeparator(s[0]) {
    } else {
      SplitStops(s[1..]);
    }
  }

  lemma {:induction false} GapStops(s: string)
    ensures GapLength(s) < |s| ==> !IsSeparator(s[GapLength(s)])
    ensures forall i :: 0 <= i < GapLength(s) ==> IsSeparator(s[i])
  {
    if s == "" || !IsSeparator(s[0]) {
    } else {
      GapStops(s[1..]);
    }
  }

  ghost predicate NoSeparator(t: string) {
    forall i :: 0 <= i < |t| ==> !IsSeparator(t[i])
  }

  /** What is left to split after the first token. */
  function Rest(s: string): string {
    s[WordLength(s) + GapLength(s[WordLength(s)..])..]
  }

  /** Where the rest begins, and what is in between. */
  lemma RestStart(s: string)
    requires WordLength(s) < |s|
    ensures |Rest(s)| < |s|
    ensures Rest(s) != "" ==> !IsSeparator(Rest(s)[0]) && Rest(s)[|Rest(s)| - 1] == s[|s| - 1]
    ensures Rest(s) == "" ==> IsSeparator(s[|s| - 1])
  {
    SplitStops(s);
    var gap := s[WordLength(s)..];
    GapStops(gap);
    assert gap[0] == s[WordLength(s)];
    var g := GapLength(gap);
    if g == |gap| {
      assert gap[|gap| - 1] == s[|s| - 1];
    } else {
      assert Rest(s)[0] == gap[g];
    }
  }

  /** The first token and the rest after the gap. */
  lemma FirstToken(s: string)
    requires WordLength(s) < |s|
    ensures Split(s) == [s[..WordLength(s)]] + Split(Rest(s))
    ensures NoSeparator(s[..WordLength(s)])
  {
    SplitStops(s);
  }

  lemma SplitFirst(s: string)
    ensures Split(s)[0] == "" <==> s == "" || IsSeparator(s[0])
  {
    SplitStops(s);
    if WordLength(s) < |s| { FirstToken(s); }
  }

  lemma {:induction false} SplitLast(s: string)
    ensures Split(s)[|Split(s)| - 1] == "" <==> s == "" || IsSeparator(s[|s| - 1])
    decreases |s|
  {
    if WordLength(s) == |s| {
      SplitStops(s);
      assert s != "" ==> !IsSeparator(s[|s| - 1]);
    } else {
      var rest := Rest(s);
      FirstToken(s);
      RestStart(s);
      assert Split(s)[|Split(s)| - 1] == Split(rest)[|Split(rest)| - 1];
      SplitLast(rest);
    }
  }

  lemma {:induction false} SplitInterior(s: string, i: nat)
    requires i < |Split(s)|
    ensures NoSeparator(Split(s)[i])
    ensures 0 < i < |Split(s)| - 1 ==> Split(s)[i] != ""
    decreases |s|
  {
    SplitStops(s);
    if WordLength(s) == |s| {
    } else {
      FirstToken(s);
      RestStart(s);
      if i > 0 {
        SplitInterior(Rest(s), i - 1);
        SplitFirst(Rest(s));
      }
    }
  }

  /**
   Tokens hold no separators. Only the first and the last can be empty: the first when the
   input starts with a separator, the last when it ends with one (or is empty).
  */
  lemma SplitTokens(s: string)
    ensures forall i :: 0 <= i < |Split(s)| ==> NoSeparator(Split(s)[i])
    ensures forall i :: 0 < i < |Split(s)| - 1 ==> Split(s)[i] != ""
    ensures Split(s)[0] == "" <==> s == "" || IsSeparator(s[0])
    ensures Split(s)[|Split(s)| - 1] == "" <==> s == "" || IsSeparator(s[|s| - 1])
  {
    SplitFirst(s);
    SplitLast(s);
    forall i | 0 <= i < |Split(s)|
      ensures NoSeparator(Split(s)[i]) && (0 < i < |Split(s)| - 1 ==> Split(s)[i] != "") {
      SplitInterior(s, i);
    }
  }

  function Interleave(tokens: seq<string>, gaps: seq<string>): string
    requires |tokens| == |gaps| + 1
  {
    if gaps == [] then tokens[0] else tokens[0] + gaps[0] + Interleave(tokens[1..], gaps[1..])
  }

  ghost predicate IsGap(g: string) {
    g != "" && forall i :: 0 <= i < |g| ==> IsSeparator(g[i])
  }

  lemma InterleaveCons(token: string, gap: string, tokens: seq<string>, gaps: seq<string>)
    requires |tokens| == |gaps| + 1
    ensures Interleave([token] + tokens, [gap] + gaps) == token + gap + Interleave(tokens, gaps)
  {
    assert ([token] + tokens)[1..] == tokens && ([gap] + gaps)[1..] == gaps;
  }

  /** The first token, the gap after it and the rest. */
  lemma FirstGap(s: string) returns (gap: string)
    requires WordLength(s) < |s|
    ensures IsGap(gap) && s == s[..WordLength(s)] + gap + Rest(s)
  {
    var n := WordLength(s);
    var after := s[n..];
    var g := GapLength(after);
    SplitStops(s);
    GapStops(after);
    assert after[0] == s[n];
    gap := after[..g];
    assert Rest(s) == after[g..];
  }

  /** Nothing but runs of separators is dropped: with them in between the tokens are the input again. */
  lemma {:induction false} SplitRejoins(s: string) returns (gaps: seq<string>)
    ensures |Split(s)| == |gaps| + 1 && Interleave(Split(s), gaps) == s
    ensures forall i :: 0 <= i < |gaps| ==> IsGap(gaps[i])
    decreases |s|
  {
    if WordLength(s) == |s| {
      gaps := [];
    } else {
      var gap := FirstGap(s);
      FirstToken(s);
      RestStart(s);
      var more := SplitRejoins(Rest(s));
      gaps := [gap] + more;
      InterleaveCons(s[..WordLength(s)], gap, Split(Rest(s)), more);
    }
  }

  lemma {:induction false} WordLengthIs(t: string, rest: string)
    requires NoSeparator(t) && (rest == "" || IsSeparator(rest[0]))
    ensures WordLength(t + rest) == |t|
  {
    if t == "" {
      assert t + rest == rest;
    } else {
      assert (t + rest)[1..] == t[1..] + rest;
      assert !IsSeparator(t[0]);
      WordLengthIs(t[1..], rest);
    }
  }

  /** A single token. */
  lemma SplitOne(t: string)
    requires NoSeparator(t)
    ensures Split(t) == [t]
  {
    WordLengthIs(t, "");
    assert t + "" == t;
  }

  lemma RestAfterToken(t: string, c: char, rest: string)
    requires NoSeparator(t) && IsSeparator(c) && (rest == "" || !IsSeparator(rest[0]))
    ensures var s := t + [c] + rest;
      WordLength(s) == |t| && Rest(s) == rest && s[..|t|] == t
  {
    var s, gap := t + [c] + rest, [c] + rest;
    assert s == t + gap;
    WordLengthIs(t, gap);
    assert s[|t|..] == gap && gap[1..] == rest;
    assert GapLength(rest) == 0;
    assert GapLength(gap) == 1;
    assert s[|t| + 1..] == rest;
  }

  /** A token in front, set off by one separator. */
  lemma SplitCons(t: string, c: char, rest: string)
    requires NoSeparator(t) && IsSeparator(c) && (rest == "" || !IsSeparator(rest[0]))
    ensures Split(t + [c] + rest) == [t] + Split(rest)
  {
    RestAfterToken(t, c, rest);
    FirstToken(t + [c] + rest);
  }

  // ----- Token classes -----

  predicate IsLower(c: char) {
    'a' <= c <= 'z'
  }

  /** `[a-z]+(?:-[a-z]+)*` */
  predicate IsKebab(s: string) {
    s != "" && IsLower(s[0]) && (
      || |s| == 1
      || IsKebab(s[1..])
      || (s[1] == '-' && IsKebab(s[2..])))
  }

  /** `^(?:-[a-z]|--[a-z]+(?:-[a-z]+)*$)`: the short form is not anchored at its end. */
  predicate IsFlag(t: string) {
    || (|t| >= 2 && t[0] == '-' && IsLower(t[1]))
    || ("--" <= t && IsKebab(t[2..]))
  }

  /** Small letters and single hyphens between them. */
  predicate IsKebabText(s: string) {
    && s != "" && s[0] != '-' && s[|s| - 1] != '-'
    && (forall i :: 0 <= i < |s| ==> s[i] == '-' || 'a' <= s[i] <= 'z')
    && (forall i :: 0 <= i < |s| - 1 ==> s[i] != '-' || s[i + 1] != '-')
  }

  lemma KebabTextTail(s: string, n: nat)
    requires n == 1 || (n == 2 && |s| >= 2 && s[1] == '-')
    requires n < |s| && 'a' <= s[0] <= 'z' && s[n] != '-'
    ensures IsKebabText(s) <==> IsKebabText(s[n..])
  {
    var t := s[n..];
    assert t[0] == s[n] && t[|t| - 1] == s[|s| - 1];
    assert forall i :: 0 <= i < |t| ==> t[i] == s[i + n];
    assert forall i :: n <= i < |s| ==> s[i] == t[i - n];
  }

  lemma {:induction false} KebabIs(s: string)
    ensures IsKebab(s) <==> IsKebabText(s)
    decreases |s|
  {
    if |s| <= 1 {
    } else if 'a' <= s[0] <= 'z' {
      KebabIs(s[1..]);
      if s[1] != '-' {
        KebabTextTail(s, 1);
      } else if |s| > 2 {
        KebabIs(s[2..]);
        if s[2] != '-' { KebabTextTail(s, 2); }
      }
    }
  }

  /** The flag pattern in terms of texts: a hyphen and a letter and anything, or two hyphens and a name. */
  lemma FlagIs(t: string)
    ensures IsFlag(t) <==>
      || (exists c: char, rest: string :: 'a' <= c <= 'z' && t == "-" + [c] + rest)
      || (exists name :: IsKebabText(name) && t == "--" + name)
  {
    if |t| >= 2 {
      assert t == [t[0]] + [t[1]] + t[2..];
      if t[0] == '-' && IsLower(t[1]) { assert t == "-" + [t[1]] + t[2..]; }
      if "--" <= t { assert t == "--" + t[2..]; }
      KebabIs(t[2..]);
    }
    if name :| IsKebabText(name) && t == "--" + name {
      assert t[2..] == name;
      KebabIs(name);
    }
  }

  /** `^(?:-n|--network)` */
  predicate IsNetworkFlag(t: string) {
    "-n" <= t || "--network" <= t
  }

  lemma NetworkFlagIs(t: string)
    ensures IsNetworkFlag(t) <==> exists rest: string :: t == "-n" + rest || t == "--network" + rest
  {
    if "-n" <= t { assert t == "-n" + t[2..]; }
    if "--network" <= t { assert t == "--network" + t[9..]; }
  }

  /** `s.includes(t)` */
  predicate Includes(s: string, t: string) {
    t <= s || (s != "" && Includes(s[1..], t))
  }

  lemma {:induction false} IncludesIs(s: string, t: string)
    ensures Includes(s, t) <==> exists l: string, r: string :: s == l + t + r
  {
    if t <= s { assert s == "" + t + s[|t|..]; }
    if s == "" {
    } else {
      IncludesIs(s[1..], t);
      if l: string, r: string :| s[1..] == l + t + r { assert s == ([s[0]] + l) + t + r; }
      if l: string, r: string :| s == l + t + r {
        if l == "" {
          assert t <= s;
        } else {
          assert s[1..] == l[1..] + t + r;
        }
      }
    }
  }

  /** `allowedFlags.find(f => f.includes(input))` */
  function FindFlag(allowed: seq<string>, t: string): Option<string> {
    if allowed == [] then None
    else if Includes(allowed[0], t) then Some(allowed[0])
    else FindFlag(allowed[1..], t)
  }

  predicate EndsWith(s: string, t: string) {
    |t| <= |s| && s[|s| - |t|..] == t
  }

  /** `=<(option|value)>$` */
  predicate WantsValue(flag: string) {
    EndsWith(flag, "=<option>") || EndsWith(flag, "=<value>")
  }

  lemma EndsWithIs(s: string, t: string)
    ensures EndsWith(s, t) <==> exists l: string :: s == l + t
  {
    if EndsWith(s, t) { assert s == s[..|s| - |t|] + t; }
  }

  /** A line wants a value exactly if it is some text followed by one of the two placeholders. */
  lemma WantsValueIs(line: string)
    ensures WantsValue(line) <==> exists text: string :: line == text + "=<option>" || line == text + "=<value>"
  {
    EndsWithIs(line, "=<option>");
    EndsWithIs(line, "=<value>");
  }

  datatype Kind = Network | UnknownFlag | PlainFlag | ValueFlag | Word

  function KindOf(allowed: seq<string>, t: string): Kind {
    if IsNetworkFlag(t) then Network
    else if !IsFlag(t) then Word
    else match FindFlag(allowed, t)
      case None => UnknownFlag
      case Some(flag) => if WantsValue(flag) then ValueFlag else PlainFlag
  }

  function Kinds(allowed: seq<string>, tokens: seq<string>): (k: seq<Kind>)
    ensures |k| == |tokens|
  {
    seq(|tokens|, i requires 0 <= i < |tokens| => KindOf(allowed, tokens[i]))
  }

  // ----- What the allowed lines declare -----

  // An allowed line lists the names of a flag, separated by commas and blanks, and may give
  // a placeholder for its value after '='; trailing blanks mean nothing: "-c, --config=<value>".

  predicate EndsName(c: char) {
    c == '=' || c == ',' || c == ' '
  }

  function NameLength(s: string): (n: nat)
    ensures n <= |s|
  {
    if s == "" || EndsName(s[0]) then 0 else 1 + NameLength(s[1..])
  }

  /** What follows the next comma or blank. */
  function AfterWord(s: string): (r: string)
    ensures s != "" ==> |r| < |s|
  {
    if s == "" then "" else if s[0] == ',' || s[0] == ' ' then s[1..] else AfterWord(s[1..])
  }

  /** The names a line declares. */
  function Names(line: string): seq<string>
    decreases |line|
  {
    if line == "" then [] else [line[..NameLength(line)]] + Names(AfterWord(line))
  }

  function TrimEnd(s: string): string {
    if s != "" && s[|s| - 1] == ' ' then TrimEnd(s[..|s| - 1]) else s
  }

  /** The line declares a value for its flag. */
  predicate DeclaresValue(line: string) {
    EndsWith(TrimEnd(line), "=<option>") || EndsWith(TrimEnd(line), "=<value>")
  }

  predicate EndsInBlank(line: string) {
    line != "" && line[|line| - 1] == ' '
  }

  /** The line names the flag; a name begins with '-'. */
  predicate Declares(line: string, t: string) {
    t != "" && t[0] == '-' && t in Names(line)
  }

  /** The first line that declares the name. */
  function FindDeclaration(allowed: seq<string>, t: string): Option<string> {
    if allowed == [] then None
    else if Declares(allowed[0], t) then Some(allowed[0])
    else FindDeclaration(allowed[1..], t)
  }

  predicate IsNetworkName(t: string) {
    t == "-n" || t == "--network"
  }

  /** The pattern sees a flag, and not the network flag. */
  predicate MatchesPattern(t: string) {
    IsFlag(t) && !IsNetworkFlag(t)
  }

  /** The kind of a token by what the lines declare; undeclared tokens are told apart by the patterns. */
  function DeclaredKind(allowed: seq<string>, t: string): Kind {
    if IsNetworkName(t) then Network
    else match FindDeclaration(allowed, t)
      case Some(line) => if DeclaresValue(line) then ValueFlag else PlainFlag
      case None => if IsNetworkFlag(t) then Network else if IsFlag(t) then UnknownFlag else Word
  }

  function DeclaredKinds(allowed: seq<string>, tokens: seq<string>): (k: seq<Kind>)
    ensures |k| == |tokens|
  {
    seq(|tokens|, i requires 0 <= i < |tokens| => DeclaredKind(allowed, tokens[i]))
  }

  lemma {:induction false} IncludesInTail(s: string, i: nat, t: string)
    requires i <= |s| && Includes(s[i..], t)
    ensures Includes(s, t)
  {
    if i == 0 {
      assert s[0..] == s;
    } else {
      assert s[1..][i - 1..] == s[i..];
      IncludesInTail(s[1..], i - 1, t);
    }
  }

  lemma {:induction false} AfterWordIsTail(s: string) returns (i: nat)
    ensures i <= |s| && AfterWord(s) == s[i..]
  {
    if s == "" {
      i := 0;
    } else if s[0] == ',' || s[0] == ' ' {
      i := 1;
    } else {
      var j := AfterWordIsTail(s[1..]);
      i := j + 1;
      assert s[1..][j..] == s[i..];
    }
  }

  /** A line contains the names it declares. */
  lemma {:induction false} DeclaredIsIncluded(line: string, t: string)
    requires t in Names(line)
    ensures Includes(line, t)
    decreases |line|
  {
    if t == line[..NameLength(line)] {
      assert t <= line;
    } else {
      var i := AfterWordIsTail(line);
      DeclaredIsIncluded(AfterWord(line), t);
      IncludesInTail(line, i, t);
    }
  }

  /** Text that ends in a placeholder ends in '>'. */
  lemma PlaceholderEndsInAngle(s: string)
    requires WantsValue(s)
    ensures s != "" && s[|s| - 1] == '>'
  {
    if EndsWith(s, "=<option>") {
      assert s[|s| - 1] == s[|s| - 9..][8];
    } else {
      assert s[|s| - 1] == s[|s| - 8..][7];
    }
  }

  /** The anchored placeholder is seen exactly when no blank follows it. */
  lemma WantsValueIff(line: string)
    ensures WantsValue(line) <==> DeclaresValue(line) && !EndsInBlank(line)
  {
    if WantsValue(line) { PlaceholderEndsInAngle(line); }
  }

  /** The first line that contains the text. */
  ghost predicate FirstIncluding(allowed: seq<string>, t: string, i: nat) {
    i < |allowed| && Includes(allowed[i], t) && forall j :: 0 <= j < i ==> !Includes(allowed[j], t)
  }

  lemma {:induction false} FindFlagIs(allowed: seq<string>, t: string)
    ensures match FindFlag(allowed, t)
      case None => forall line :: line in allowed ==> !Includes(line, t)
      case Some(f) => exists i: nat :: FirstIncluding(allowed, t, i) && allowed[i] == f
    ensures FindDeclaration(allowed, t).Some? ==> FindFlag(allowed, t).Some?
  {
    if allowed == [] {
    } else {
      FindFlagIs(allowed[1..], t);
      assert allowed == [allowed[0]] + allowed[1..];
      if Includes(allowed[0], t) {
        assert FirstIncluding(allowed, t, 0);
      } else if i: nat :| FirstIncluding(allowed[1..], t, i) && FindFlag(allowed, t) == Some(allowed[1..][i]) {
        assert FirstIncluding(allowed, t, i + 1);
      }
      if Declares(allowed[0], t) { DeclaredIsIncluded(allowed[0], t); }
    }
  }

  /**
   Exactly when a token is classified as it is declared. A declared one: the patterns see a
   flag in it, and the first line it occurs in has a placeholder with no blank behind it just
   when the first line declaring it has a placeholder. Another: if the patterns see a flag in
   it, it occurs in no line.
  */
  lemma KindIsDeclaredIff(allowed: seq<string>, t: string)
    requires !IsNetworkName(t)
    ensures KindOf(allowed, t) == DeclaredKind(allowed, t) <==>
      match FindDeclaration(allowed, t)
      case Some(declaring) =>
        && MatchesPattern(t) && FindFlag(allowed, t).Some?
        && var first := FindFlag(allowed, t).value;
          DeclaresValue(first) && !EndsInBlank(first) <==> DeclaresValue(declaring)
      case None => MatchesPattern(t) ==> forall line :: line in allowed ==> !Includes(line, t)
  {
    FindFlagIs(allowed, t);
    match FindFlag(allowed, t)
    case None =>
    case Some(first) =>
      WantsValueIff(first);
      var i: nat :| FirstIncluding(allowed, t, i);
      assert allowed[i] in allowed;
  }

  /** If the first line containing the flag declares it, only a blank after a placeholder hurts. */
  lemma FirstLineDeclares(allowed: seq<string>, t: string)
    requires MatchesPattern(t)
    requires FindDeclaration(allowed, t).Some? && FindDeclaration(allowed, t) == FindFlag(allowed, t)
    ensures var line := FindDeclaration(allowed, t).value;
      KindOf(allowed, t) == DeclaredKind(allowed, t) <==> !(DeclaresValue(line) && EndsInBlank(line))
  {
    KindIsDeclaredIff(allowed, t);
  }

  /** Every token of the input is classified as it is declared. */
  ghost predicate ClassifiedAsDeclared(allowed: seq<string>, input: string) {
    forall i :: 0 <= i < |Split(input)| ==> KindOf(allowed, Split(input)[i]) == DeclaredKind(allowed, Split(input)[i])
  }

  /** The patterns see a flag in every declared name the input uses. */
  ghost predicate NamesMatch(allowed: seq<string>, input: string) {
    forall i :: 0 <= i < |Split(input)| && FindDeclaration(allowed, Split(input)[i]).Some? ==>
      IsNetworkName(Split(input)[i]) || MatchesPattern(Split(input)[i])
  }

  // ----- The automaton and its language -----

  /** What the loop does from here on; `expected` is `isOptionOrValueExpected`. */
  predicate Accepts(k: seq<Kind>, expected: bool) {
    k == [] || match k[0]
      case Network => false
      case UnknownFlag => false
      case PlainFlag => !expected && |k| > 1 && Accepts(k[1..], false)
      case ValueFlag => !expected && |k| > 1 && Accepts(k[1..], true)
      case Word => expected && Accepts(k[1..], false)
  }

  /** `validateStartCommandFlags` */
  method ValidateStartCommandFlags(allowed: seq<string>, input: string) returns (valid: bool)
    ensures valid == Valid(allowed, input)
  {
    var isOptionOrValueExpected := false;
    var userInputs := Split(input);
    ghost var k := Kinds(allowed, userInputs);
    for i := 0 to |userInputs|
      invariant Accepts(k, false) == Accepts(k[i..], isOptionOrValueExpected)
    {
      var token := userInputs[i];
      assert k[i..][0] == KindOf(allowed, token) && k[i..][1..] == k[i + 1..];
      if IsNetworkFlag(token) { return false; }
      if IsFlag(token) {
        var correspondingFlag := FindFlag(allowed, token);
        if correspondingFlag == None || isOptionOrValueExpected || i == |userInputs| - 1 {
          return false;
        }
        if WantsValue(correspondingFlag.value) {
          isOptionOrValueExpected := true;
        }
      } else if isOptionOrValueExpected {
        isOptionOrValueExpected := false;
      } else {
        return false;
      }
    }
    assert k[|userInputs|..] == [];
    return true;
  }

  predicate Valid(allowed: seq<string>, input: string) {
    Accepts(Kinds(allowed, Split(input)), false)
  }

  /** B* V x: plain flags, a flag that takes a value, its value. */
  ghost predicate IsGroup(g: seq<Kind>) {
    && |g| >= 2 && g[|g| - 1] == Word && g[|g| - 2] == ValueFlag
    && forall i :: 0 <= i < |g| - 2 ==> g[i] == PlainFlag
  }

  function Flatten(parts: seq<seq<Kind>>): seq<Kind> {
    if parts == [] then [] else parts[0] + Flatten(parts[1..])
  }

  ghost predicate AreGroups(parts: seq<seq<Kind>>) {
    parts != [] && forall i :: 0 <= i < |parts| ==> IsGroup(parts[i])
  }

  /** (B* V x)+ */
  ghost predicate InLanguage(k: seq<Kind>) {
    exists parts :: AreGroups(parts) && Flatten(parts) == k
  }

  lemma {:induction false} GroupAccepted(g: seq<Kind>, rest: seq<Kind>)
    requires IsGroup(g) && Accepts(rest, false)
    ensures Accepts(g + rest, false)
  {
    assert (g + rest)[1..] == g[1..] + rest;
    if |g| > 2 {
      GroupAccepted(g[1..], rest);
    } else {
      assert (g + rest)[1..][1..] == rest;
    }
  }

  lemma {:induction false} GroupsAccepted(parts: seq<seq<Kind>>)
    requires AreGroups(parts)
    ensures Accepts(Flatten(parts), false) && Flatten(parts) != []
  {
    if |parts| == 1 {
      assert Flatten(parts[1..]) == [];
    } else {
      GroupsAccepted(parts[1..]);
    }
    GroupAccepted(parts[0], Flatten(parts[1..]));
  }

  lemma FlattenCons(part: seq<Kind>, parts: seq<seq<Kind>>)
    ensures Flatten([part] + parts) == part + Flatten(parts)
  {
    assert ([part] + parts)[1..] == parts;
  }

  lemma {:induction false} AcceptedSplits(k: seq<Kind>) returns (parts: seq<seq<Kind>>)
    requires k != [] && Accepts(k, false)
    ensures AreGroups(parts) && Flatten(parts) == k
    decreases |k|
  {
    if k[0] == PlainFlag {
      var p := AcceptedSplits(k[1..]);
      parts := [[PlainFlag] + p[0]] + p[1..];
      FlattenCons([PlainFlag] + p[0], p[1..]);
      assert k == [PlainFlag] + k[1..];
    } else {
      assert k[0] == ValueFlag && k[1..][0] == Word && k[1..][1..] == k[2..];
      var p: seq<seq<Kind>> := [];
      if |k| > 2 { p := AcceptedSplits(k[2..]); }
      parts := [k[..2]] + p;
      FlattenCons(k[..2], p);
      assert k == k[..2] + k[2..];
    }
  }

  lemma AcceptedIffInLanguage(k: seq<Kind>)
    requires k != []
    ensures Accepts(k, false) <==> InLanguage(k)
  {
    if Accepts(k, false) {
      var parts := AcceptedSplits(k);
    }
    if parts :| AreGroups(parts) && Flatten(parts) == k {
      GroupsAccepted(parts);
    }
  }

  /**
   The validator accepts exactly (B* V x)+ over the kinds it assigns, and over the declared
   kinds where the two agree.
  */
  lemma ValidIffInLanguage(allowed: seq<string>, input: string)
    ensures Valid(allowed, input) <==> InLanguage(Kinds(allowed, Split(input)))
    ensures ClassifiedAsDeclared(allowed, input) ==>
      (Valid(allowed, input) <==> InLanguage(DeclaredKinds(allowed, Split(input))))
  {
    AcceptedIffInLanguage(Kinds(allowed, Split(input)));
    if ClassifiedAsDeclared(allowed, input) {
      assert Kinds(allowed, Split(input)) == DeclaredKinds(allowed, Split(input));
    }
  }

  /** The language one would expect, (B | V x)+: flags in any order, each with its value. */
  predicate IsCommand(k: seq<Kind>) {
    k != [] && (
      || (k[0] == PlainFlag && (|k| == 1 || IsCommand(k[1..])))
      || (k[0] == ValueFlag && |k| >= 2 && k[1] == Word && (|k| == 2 || IsCommand(k[2..]))))
  }

  lemma {:induction false} AcceptedIsCommand(k: seq<Kind>)
    requires k != []
    ensures Accepts(k, false) <==> IsCommand(k) && k[|k| - 1] == Word
    decreases |k|
  {
    if |k| == 1 {
    } else {
      assert k[1..][1..] == k[2..] && k[1..][0] == k[1];
      assert Accepts(k[1..], true) == (k[1] == Word && Accepts(k[2..], false));
      AcceptedIsCommand(k[1..]);
      if |k| > 2 { AcceptedIsCommand(k[2..]); }
    }
  }

  /** A command in the declared flags whose last token is a value. */
  predicate IsDeclaredCommand(allowed: seq<string>, input: string) {
    var k := DeclaredKinds(allowed, Split(input));
    IsCommand(k) && k[|k| - 1] == Word
  }

  // ----- One input in both readings -----

  /** How a token of kind `c` can be declared. */
  predicate Compatible(c: Kind, d: Kind) {
    match c
    case Network => d == Network || d == PlainFlag || d == ValueFlag
    case UnknownFlag => d == UnknownFlag
    case Word => d == Word || d == PlainFlag || d == ValueFlag
    case _ => d == UnknownFlag || d == PlainFlag || d == ValueFlag
  }

  lemma KindsCompatible(allowed: seq<string>, t: string)
    ensures Compatible(KindOf(allowed, t), DeclaredKind(allowed, t))
  {
    FindFlagIs(allowed, t);
  }

  /** Two plain flags, the first taken to want a value and the second to be it. */
  predicate IsPair(c: seq<Kind>, d: seq<Kind>)
    requires |c| == |d| >= 2
  {
    c[0] == ValueFlag && c[1] == Word && d[0] == d[1] == PlainFlag
  }

  /**
   The kinds agree, but for pairs of declared plain flags of which the first is taken to want
   a value and the second, outside the pattern, to be that value.
  */
  predicate SameButPairs(c: seq<Kind>, d: seq<Kind>)
    requires |c| == |d|
  {
    || c == []
    || (c[0] == d[0] && SameButPairs(c[1..], d[1..]))
    || (|c| >= 2 && IsPair(c, d) && SameButPairs(c[2..], d[2..]))
  }

  lemma {:induction false} SameIffNoPairs(c: seq<Kind>, d: seq<Kind>)
    requires |c| == |d|
    requires forall i :: 0 <= i < |c| && d[i] == PlainFlag ==> c[i] != Word
    ensures SameButPairs(c, d) <==> c == d
    decreases |c|
  {
    if c == [] {
    } else {
      SameIffNoPairs(c[1..], d[1..]);
      assert c == [c[0]] + c[1..] && d == [d[0]] + d[1..];
    }
  }

  /** One more step of both recursions. */
  lemma TwoSteps(c: seq<Kind>, d: seq<Kind>)
    requires |c| == |d| >= 2
    ensures IsCommand(c) <==>
      || (c[0] == PlainFlag && IsCommand(c[1..]))
      || (c[0] == ValueFlag && c[1] == Word && (|c| == 2 || IsCommand(c[2..])))
    ensures c[0] == d[0] && c[1] == d[1] && SameButPairs(c[2..], d[2..]) ==> SameButPairs(c, d)
    ensures SameButPairs(c, d) && c[0] == d[0] ==> SameButPairs(c[1..], d[1..])
    ensures SameButPairs(c, d) && c[0] == d[0] == ValueFlag && (c[1] == Word || d[1] == Word) ==>
      c[1] == d[1] && SameButPairs(c[2..], d[2..])
    ensures IsPair(c, d) ==> (SameButPairs(c, d) <==> SameButPairs(c[2..], d[2..]))
  {
    assert c[1..][0] == c[1] && d[1..][0] == d[1];
    assert c[1..][1..] == c[2..] && d[1..][1..] == d[2..];
  }

  /** Two readings that are commands agree. */
  lemma {:induction false} CommandsAgree(c: seq<Kind>, d: seq<Kind>)
    requires |c| == |d| && forall i :: 0 <= i < |c| ==> Compatible(c[i], d[i])
    requires IsCommand(c) && IsCommand(d) && c[|c| - 1] == Word
    ensures SameButPairs(c, d)
    decreases |c|
  {
    if |c| == 1 {
      assert false;
    } else {
      TwoSteps(c, d);
      TwoSteps(d, c);
      assert Compatible(c[0], d[0]) && Compatible(c[1], d[1]);
      if c[0] == PlainFlag == d[0] {
        CommandsAgree(c[1..], d[1..]);
      } else if |c| > 2 {
        assert d[1..][0] == d[1] && d[1..][1..] == d[2..];
        CommandsAgree(c[2..], d[2..]);
      }
    }
  }

  /** Of readings that agree, both or none are commands. */
  lemma {:induction false} AgreeingCommands(c: seq<Kind>, d: seq<Kind>)
    requires |c| == |d| && SameButPairs(c, d)
    requires c != [] && c[|c| - 1] == Word
    ensures IsCommand(c) <==> IsCommand(d)
    decreases |c|
  {
    if |c| == 1 {
    } else {
      TwoSteps(c, d);
      TwoSteps(d, c);
      if c[0] == d[0] {
        AgreeingCommands(c[1..], d[1..]);
        if c[0] == ValueFlag && (c[1] == Word || d[1] == Word) && |c| > 2 { AgreeingCommands(c[2..], d[2..]); }
      } else {
        assert d[1..][0] == d[1] && d[1..][1..] == d[2..];
        if |c| > 2 { AgreeingCommands(c[2..], d[2..]); }
      }
    }
  }

  /** Of accepted kinds and a declared command, either one and the agreement give the other. */
  lemma ReadingsAgree(c: seq<Kind>, d: seq<Kind>)
    requires |c| == |d| && forall i :: 0 <= i < |c| ==> Compatible(c[i], d[i])
    requires c != [] && c[|c| - 1] == Word
    ensures IsCommand(c) && IsCommand(d) ==> SameButPairs(c, d)
    ensures SameButPairs(c, d) ==> (IsCommand(c) <==> IsCommand(d))
  {
    if IsCommand(c) && IsCommand(d) { CommandsAgree(c, d); }
    if SameButPairs(c, d) { AgreeingCommands(c, d); }
  }

  /** Two readings are both accepted, or neither, exactly if: when one is, they agree and end in a value. */
  lemma ReadingsAcceptedIff(c: seq<Kind>, d: seq<Kind>)
    requires |c| == |d| && forall i :: 0 <= i < |c| ==> Compatible(c[i], d[i])
    requires c != []
    ensures var last := |c| - 1;
      var valid, declared := IsCommand(c) && c[last] == Word, IsCommand(d) && d[last] == Word;
      && ((valid <==> declared) <==> (valid || declared ==> SameButPairs(c, d) && d[last] == Word))
      && (IsCommand(d) ==> (valid <==> SameButPairs(c, d) && c[last] == Word))
  {
    assert Compatible(c[|c| - 1], d[|c| - 1]);
    if c[|c| - 1] == Word { ReadingsAgree(c, d); }
  }

  /** The kinds of the input agree, but for pairs of declared plain flags. */
  predicate ReadAlike(allowed: seq<string>, input: string) {
    SameButPairs(Kinds(allowed, Split(input)), DeclaredKinds(allowed, Split(input)))
  }

  lemma LastKinds(allowed: seq<string>, input: string)
    ensures var tokens := Split(input); var n := |tokens| - 1;
      && Kinds(allowed, tokens)[n] == KindOf(allowed, tokens[n])
      && DeclaredKinds(allowed, tokens)[n] == DeclaredKind(allowed, tokens[n])
  {
  }

  /** Both readings of an input, and what its names say of them. */
  lemma BothReadings(allowed: seq<string>, input: string) returns (c: seq<Kind>, d: seq<Kind>)
    ensures c == Kinds(allowed, Split(input)) && d == DeclaredKinds(allowed, Split(input))
    ensures c != [] && |c| == |d| && forall i :: 0 <= i < |c| ==> Compatible(c[i], d[i])
    ensures Valid(allowed, input) <==> IsCommand(c) && c[|c| - 1] == Word
    ensures IsDeclaredCommand(allowed, input) <==> IsCommand(d) && d[|d| - 1] == Word
    ensures ReadAlike(allowed, input) <==> SameButPairs(c, d)
    ensures NamesMatch(allowed, input) ==> (SameButPairs(c, d) <==> ClassifiedAsDeclared(allowed, input))
    ensures ClassifiedAsDeclared(allowed, input) <==> c == d
  {
    var tokens := Split(input);
    c, d := Kinds(allowed, tokens), DeclaredKinds(allowed, tokens);
    AcceptedIsCommand(c);
    forall i | 0 <= i < |c| ensures Compatible(c[i], d[i]) {
      KindsCompatible(allowed, tokens[i]);
    }
    if c == d {
      forall i | 0 <= i < |tokens| ensures KindOf(allowed, tokens[i]) == DeclaredKind(allowed, tokens[i]) {
        assert c[i] == d[i];
      }
    }
    if NamesMatch(allowed, input) { SameIffNoPairs(c, d); }
  }

  /**
   Where the validator departs from that language. Over the kinds it assigns, a command is
   rejected if and only if its last token is a flag. A command in the declared flags is
   accepted if and only if its kinds agree and its last token is read as a value; if the
   patterns see its names, that is: all tokens are classified as declared, and the last one is
   a value.
  */
  lemma ValidIffCommandEndsInValue(allowed: seq<string>, input: string)
    ensures var tokens := Split(input); var last := tokens[|tokens| - 1];
      && (Valid(allowed, input) <==> IsCommand(Kinds(allowed, tokens)) && KindOf(allowed, last) == Word)
      && (IsCommand(DeclaredKinds(allowed, tokens)) ==>
        && (Valid(allowed, input) <==> ReadAlike(allowed, input) && KindOf(allowed, last) == Word)
        && (NamesMatch(allowed, input) ==>
          (Valid(allowed, input) <==> ClassifiedAsDeclared(allowed, input) && DeclaredKind(allowed, last) == Word)))
    ensures ClassifiedAsDeclared(allowed, input) ==> (Valid(allowed, input) <==> IsDeclaredCommand(allowed, input))
  {
    var c, d := BothReadings(allowed, input);
    LastKinds(allowed, input);
    ReadingsAcceptedIff(c, d);
  }

  /**
   Exactly when the validator follows the lines on one input: if either reading accepts it,
   then its kinds agree and it ends in a value. If the patterns see its names, that is: if
   either reading accepts it, then every token is classified as declared.
  */
  lemma InputFollowsDeclarationsIff(allowed: seq<string>, input: string)
    ensures var tokens := Split(input);
      (Valid(allowed, input) <==> IsDeclaredCommand(allowed, input)) <==>
        (Valid(allowed, input) || IsDeclaredCommand(allowed, input) ==>
          ReadAlike(allowed, input) && DeclaredKind(allowed, tokens[|tokens| - 1]) == Word)
    ensures NamesMatch(allowed, input) ==>
      ((Valid(allowed, input) <==> IsDeclaredCommand(allowed, input)) <==>
        (Valid(allowed, input) || IsDeclaredCommand(allowed, input) ==> ClassifiedAsDeclared(allowed, input)))
  {
    var c, d := BothReadings(allowed, input);
    LastKinds(allowed, input);
    ReadingsAcceptedIff(c, d);
  }

  /** Every possible token is classified as it is declared. */
  ghost predicate FlagsAsDeclared(allowed: seq<string>) {
    forall t :: NoSeparator(t) ==> KindOf(allowed, t) == DeclaredKind(allowed, t)
  }

  /** No possible token takes a value, as classified or as declared. */
  ghost predicate NoValueFlags(allowed: seq<string>) {
    forall t :: NoSeparator(t) ==> KindOf(allowed, t) != ValueFlag && DeclaredKind(allowed, t) != ValueFlag
  }

  lemma {:induction false} CommandHasValueFlag(k: seq<Kind>)
    requires IsCommand(k) && k[|k| - 1] == Word
    ensures ValueFlag in k
    decreases |k|
  {
    if k[0] == ValueFlag {
    } else {
      assert k[1..][|k[1..]| - 1] == k[|k| - 1];
      CommandHasValueFlag(k[1..]);
    }
  }

  lemma TwoKinds(a: Kind)
    ensures Accepts([a, Word], false) <==> a == ValueFlag
    ensures IsCommand([a, Word]) <==> a == ValueFlag
  {
    assert [a, Word][1..] == [Word] && [Word][1..] == [];
    assert !IsCommand([Word]) && Accepts([Word], true) && !Accepts([Word], false);
  }

  lemma ThreeKinds(a: Kind)
    requires a != ValueFlag
    ensures Accepts([a, ValueFlag, Word], false) <==> a == PlainFlag
    ensures IsCommand([a, ValueFlag, Word]) <==> a == PlainFlag
  {
    TwoKinds(ValueFlag);
    assert [a, ValueFlag, Word][1..] == [ValueFlag, Word];
  }

  /** What is accepted and what is declared, once the tokens are known. */
  lemma ReadTokens(allowed: seq<string>, input: string, tokens: seq<string>, k: seq<Kind>, d: seq<Kind>)
    requires Split(input) == tokens && |k| == |d| == |tokens|
    requires forall i :: 0 <= i < |tokens| ==>
      k[i] == KindOf(allowed, tokens[i]) && d[i] == DeclaredKind(allowed, tokens[i])
    ensures Valid(allowed, input) <==> Accepts(k, false)
    ensures IsDeclaredCommand(allowed, input) <==> IsCommand(d) && d[|d| - 1] == Word
  {
    assert Kinds(allowed, tokens) == k && DeclaredKinds(allowed, tokens) == d;
  }

  ghost predicate IsWord(x: string) {
    x != "" && x[0] != '-' && NoSeparator(x)
  }

  lemma {:induction false} WordIsUndeclared(allowed: seq<string>, x: string)
    requires x == "" || x[0] != '-'
    ensures FindDeclaration(allowed, x) == None
  {
    if allowed == [] {
    } else {
      WordIsUndeclared(allowed[1..], x);
    }
  }

  lemma WordKind(allowed: seq<string>, x: string)
    requires IsWord(x)
    ensures KindOf(allowed, x) == DeclaredKind(allowed, x) == Word && !IsSeparator(x[0])
  {
    WordIsUndeclared(allowed, x);
  }

  /** One flag and a value, in both readings. */
  lemma FlagAndValue(allowed: seq<string>, t: string, x: string)
    requires NoSeparator(t) && IsWord(x)
    ensures Valid(allowed, t + " " + x) <==> KindOf(allowed, t) == ValueFlag
    ensures IsDeclaredCommand(allowed, t + " " + x) <==> DeclaredKind(allowed, t) == ValueFlag
  {
    WordKind(allowed, x);
    SplitOne(x);
    SplitCons(t, ' ', x);
    TwoKinds(KindOf(allowed, t));
    TwoKinds(DeclaredKind(allowed, t));
    ReadTokens(allowed, t + " " + x, [t, x], [KindOf(allowed, t), Word], [DeclaredKind(allowed, t), Word]);
  }

  lemma SplitThree(t: string, v: string, x: string)
    requires NoSeparator(t) && NoSeparator(v) && v != "" && IsWord(x)
    ensures Split(t + " " + (v + " " + x)) == [t, v, x]
  {
    var rest := v + " " + x;
    assert !IsSeparator(x[0]) && !IsSeparator(v[0]);
    SplitOne(x);
    SplitCons(v, ' ', x);
    assert rest[0] == v[0];
    SplitCons(t, ' ', rest);
  }

  lemma ReadThree(allowed: seq<string>, input: string, t: string, v: string, x: string)
    requires Split(input) == [t, v, x] && IsWord(x)
    requires KindOf(allowed, v) == DeclaredKind(allowed, v) == ValueFlag
    requires KindOf(allowed, t) != ValueFlag && DeclaredKind(allowed, t) != ValueFlag
    ensures Valid(allowed, input) <==> KindOf(allowed, t) == PlainFlag
    ensures IsDeclaredCommand(allowed, input) <==> DeclaredKind(allowed, t) == PlainFlag
  {
    var c, d := KindOf(allowed, t), DeclaredKind(allowed, t);
    WordKind(allowed, x);
    ThreeKinds(c);
    ThreeKinds(d);
    ReadTokens(allowed, input, [t, v, x], [c, ValueFlag, Word], [d, ValueFlag, Word]);
  }

  /** Another flag before a flag that takes a value. */
  lemma FlagBeforeValueFlag(allowed: seq<string>, t: string, v: string, x: string)
    requires NoSeparator(t) && NoSeparator(v) && v != "" && IsWord(x)
    requires KindOf(allowed, v) == DeclaredKind(allowed, v) == ValueFlag
    requires KindOf(allowed, t) != ValueFlag && DeclaredKind(allowed, t) != ValueFlag
    ensures Valid(allowed, t + " " + (v + " " + x)) <==> KindOf(allowed, t) == PlainFlag
    ensures IsDeclaredCommand(allowed, t + " " + (v + " " + x)) <==> DeclaredKind(allowed, t) == PlainFlag
  {
    SplitThree(t, v, x);
    ReadThree(allowed, t + " " + (v + " " + x), t, v, x);
  }

  /** A wrongly classified token shows in some input, if there is any flag that takes a value. */
  lemma MisclassifiedShows(allowed: seq<string>, t: string, v: string) returns (input: string)
    requires NoSeparator(t) && KindOf(allowed, t) != DeclaredKind(allowed, t)
    requires NoSeparator(v) && (KindOf(allowed, v) == ValueFlag || DeclaredKind(allowed, v) == ValueFlag)
    ensures Valid(allowed, input) != IsDeclaredCommand(allowed, input)
  {
    var x := "x";
    assert IsWord(x);
    if KindOf(allowed, t) == ValueFlag || DeclaredKind(allowed, t) == ValueFlag {
      input := t + " " + x;
      FlagAndValue(allowed, t, x);
    } else if KindOf(allowed, v) != DeclaredKind(allowed, v) {
      input := v + " " + x;
      FlagAndValue(allowed, v, x);
    } else {
      assert v != "";
      KindsCompatible(allowed, t);
      input := t + " " + (v + " " + x);
      FlagBeforeValueFlag(allowed, t, v, x);
    }
  }

  /**
   Exactly when the validator does what the allowed lines declare, for every input: every
   token is classified as declared, or no flag takes a value, when neither accepts anything.
   `KindIsDeclaredIff` says token by token what that asks of the lines, which is more than
   ordinary lines meet (`ContainedFlagMisleads`).
  */
  lemma ValidatorFollowsDeclarationsIff(allowed: seq<string>)
    ensures (forall input :: Valid(allowed, input) <==> IsDeclaredCommand(allowed, input))
      <==> FlagsAsDeclared(allowed) || NoValueFlags(allowed)
  {
    if FlagsAsDeclared(allowed) || NoValueFlags(allowed) {
      forall input ensures Valid(allowed, input) <==> IsDeclaredCommand(allowed, input) {
        FollowsOn(allowed, input);
      }
    } else {
      var t :| NoSeparator(t) && KindOf(allowed, t) != DeclaredKind(allowed, t);
      var v :| NoSeparator(v) && (KindOf(allowed, v) == ValueFlag || DeclaredKind(allowed, v) == ValueFlag);
      var input := MisclassifiedShows(allowed, t, v);
    }
  }

  lemma FollowsOn(allowed: seq<string>, input: string)
    requires FlagsAsDeclared(allowed) || NoValueFlags(allowed)
    ensures Valid(allowed, input) <==> IsDeclaredCommand(allowed, input)
  {
    var tokens := Split(input);
    SplitTokens(input);
    if FlagsAsDeclared(allowed) {
      forall i | 0 <= i < |tokens| ensures KindOf(allowed, tokens[i]) == DeclaredKind(allowed, tokens[i]) {
        assert NoSeparator(tokens[i]);
      }
      ValidIffCommandEndsInValue(allowed, input);
    } else {
      forall i | 0 <= i < |tokens|
        ensures KindOf(allowed, tokens[i]) != ValueFlag && DeclaredKind(allowed, tokens[i]) != ValueFlag {
        assert NoSeparator(tokens[i]);
      }
      NothingToAccept(allowed, input);
    }
  }

  /** Without a flag that takes a value neither reading accepts the input. */
  lemma NothingToAccept(allowed: seq<string>, input: string)
    requires forall i :: 0 <= i < |Split(input)| ==>
      KindOf(allowed, Split(input)[i]) != ValueFlag && DeclaredKind(allowed, Split(input)[i]) != ValueFlag
    ensures !Valid(allowed, input) && !IsDeclaredCommand(allowed, input)
  {
    var c, d := BothReadings(allowed, input);
    assert ValueFlag !in c && ValueFlag !in d;
    if IsCommand(c) && c[|c| - 1] == Word { CommandHasValueFlag(c); }
    if IsCommand(d) && d[|d| - 1] == Word { CommandHasValueFlag(d); }
  }

  /**
   What ordinary lines run into: an undeclared flag that occurs in some line, beside a flag
   declared to take a value.
  */
  lemma ContainedFlagMisleads(allowed: seq<string>, t: string, v: string)
    requires NoSeparator(t) && MatchesPattern(t) && FindDeclaration(allowed, t) == None
    requires exists line :: line in allowed && Includes(line, t)
    requires NoSeparator(v) && DeclaredKind(allowed, v) == ValueFlag
    ensures exists input :: Valid(allowed, input) != IsDeclaredCommand(allowed, input)
  {
    KindIsDeclaredIff(allowed, t);
    var input := MisclassifiedShows(allowed, t, v);
  }

  /** A known flag without a value is turned down when it stands alone. */
  lemma LonePlainFlagIsRejected(allowed: seq<string>, input: string)
    requires NoSeparator(input) && KindOf(allowed, input) == PlainFlag
    ensures IsCommand(Kinds(allowed, Split(input))) && !Valid(allowed, input)
  {
    SplitOne(input);
  }

  lemma {:induction false} AcceptedFirst(k: seq<Kind>)
    requires k != [] && Accepts(k, false)
    ensures k[0] == PlainFlag || k[0] == ValueFlag
    ensures k[|k| - 1] == Word
  {
    AcceptedIsCommand(k);
  }

  lemma AcceptedStartsWithFlag(allowed: seq<string>, input: string)
    requires Valid(allowed, input)
    ensures Split(input)[0] != ""
  {
    var k := Kinds(allowed, Split(input));
    AcceptedFirst(k);
    assert k[0] == KindOf(allowed, Split(input)[0]);
  }

  /**
   A value can be missing after all: in an accepted input every value is non-empty if and only
   if the input does not end in a separator, as "--config=" does.
  */
  lemma ValuesPresentIffNoTrailingSeparator(allowed: seq<string>, input: string)
    requires Valid(allowed, input)
    ensures input != ""
    ensures (forall i :: 0 <= i < |Split(input)| ==> Split(input)[i] != "") <==> !IsSeparator(input[|input| - 1])
  {
    AcceptedStartsWithFlag(allowed, input);
    SplitTokens(input);
  }

  // ----- Asking again -----

  datatype Resolved = StartWith(command: string) | InvalidFlags

  /** The answers that pass the validator. */
  function Passes(allowed: seq<string>, answers: nat -> string): nat -> bool {
    (i: nat) => Valid(allowed, answers(i))
  }

  /** The first of `tries` indices from `from` on that passes. */
  function FirstPassing(passes: nat -> bool, from: nat, tries: nat): Option<nat>
    decreases tries
  {
    if tries == 0 then None
    else if passes(from) then Some(from)
    else FirstPassing(passes, from + 1, tries - 1)
  }

  lemma {:induction false} FirstPassingIs(passes: nat -> bool, from: nat, tries: nat)
    ensures match FirstPassing(passes, from, tries)
      case None => forall i: nat :: from <= i < from + tries ==> !passes(i)
      case Some(i) => from <= i < from + tries && passes(i) && forall j: nat :: from <= j < i ==> !passes(j)
    decreases tries
  {
    if tries == 0 {
    } else {
      FirstPassingIs(passes, from + 1, tries - 1);
    }
  }

  class StartCommand {
    var liskCoreStartCommand: string

    constructor ()
    {
      liskCoreStartCommand := "";
    }

    /**
     `resolveLiskCoreStartCommand`. `answers(i)` is what the user types at the i-th prompt;
     `prompts` counts the prompts. Three answers are looked at. If none is valid a fourth is
     asked for, not looked at, and the base command is used: the error is never raised.
    */
    method Resolve(
        network: string, configPath: string, customize: bool, allowed: seq<string>, answers: nat -> string)
      returns (r: Resolved, prompts: nat)
      modifies this
      ensures r.StartWith? && liskCoreStartCommand == r.command
      ensures !customize ==> r.command == "lisk-core start --network " + network + " --config " + configPath
      ensures customize ==>
        match FirstPassing(Passes(allowed, answers), 0, 3)
        case Some(i) => r.command == "lisk-core start --network " + network + " " + answers(i) && prompts == i + 1
        case None => r.command == "lisk-core start --network " + network && prompts == 4
    {
      var baseStartCommand := "lisk-core start --network " + network;
      prompts := 0;
      if !customize {
        liskCoreStartCommand := baseStartCommand + " --config " + configPath;
        return StartWith(liskCoreStartCommand), prompts;
      }
      r, prompts := AskForFlags(baseStartCommand, allowed, answers);
      liskCoreStartCommand := r.command;
    }
  }

  /** The retry loop. */
  method AskForFlags(baseStartCommand: string, allowed: seq<string>, answers: nat -> string)
    returns (r: Resolved, prompts: nat)
    ensures match FirstPassing(Passes(allowed, answers), 0, 3)
      case Some(i) => r == StartWith(baseStartCommand + " " + answers(i)) && prompts == i + 1
      case None => r == StartWith(baseStartCommand) && prompts == 4
  {
    ghost var passes := Passes(allowed, answers);
    var customStartCommand := baseStartCommand;
    var userInput := answers(0);
    prompts := 1;
    var numTriesLeft: int := 3;
    while numTriesLeft != 0
      invariant 0 <= numTriesLeft <= 3 && prompts == 4 - numTriesLeft && userInput == answers(prompts - 1)
      invariant customStartCommand == baseStartCommand
      invariant forall j: nat :: j < prompts - 1 ==> !passes(j)
      decreases numTriesLeft
    {
      numTriesLeft := numTriesLeft - 1;
      var isValid := ValidateStartCommandFlags(allowed, userInput);
      assert isValid == passes(prompts - 1);
      if isValid {
        customStartCommand := baseStartCommand + " " + userInput;
        break;
      }
      if numTriesLeft >= 0 {
        userInput := answers(prompts);
        prompts := prompts + 1;
      } else {
        return InvalidFlags, prompts;
      }
    }
    FirstPassingIs(passes, 0, 3);
    return StartWith(customStartCommand), prompts;
  }
}
