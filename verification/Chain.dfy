/**
 Watching the chain grow (src/utils/chain.ts): how remaining time is printed, and the poller
 that waits until a height is reached.
*/
module Chain {
  import opened Sequences
  import opened Decimal

  // ----- secondsToHumanString -----

  const YEAR := 31536000
  const DAY := 86400
  const HOUR := 3600
  const MINUTE := 60

  /** JavaScript's `%` takes the sign of the dividend. */
  function Remainder(a: int, b: int): int
    requires b > 0
  {
    if a >= 0 then a % b else -((-a) % b)
  }

  /** `Math.floor(a / b)` */
  function FloorDiv(a: int, b: int): int
    requires b > 0
  {
    a / b
  }

  datatype Part = Part(count: nat, unit: char)

  function PartText(p: Part): string {
    Print(p.count) + [p.unit]
  }

  function PositivePart(count: int, unit: char): seq<Part> {
    if count > 0 then [Part(count, unit)] else []
  }

  /** The fields that are printed, largest unit first. */
  function Parts(seconds: int): seq<Part> {
    var inYear := Remainder(seconds, YEAR);
    var inDay := Remainder(inYear, DAY);
    var inHour := Remainder(inDay, HOUR);
    PositivePart(FloorDiv(seconds, YEAR), 'y')
    + PositivePart(FloorDiv(inYear, DAY), 'd')
    + PositivePart(FloorDiv(inDay, HOUR), 'h')
    + PositivePart(FloorDiv(inHour, MINUTE), 'm')
    + PositivePart(Remainder(inHour, MINUTE), 's')
  }

  /** `result.join(' ')` */
  function Join(parts: seq<Part>): string {
    if parts == [] then ""
    else if |parts| == 1 then PartText(parts[0])
    else PartText(parts[0]) + " " + Join(parts[1..])
  }

  function HumanString(seconds: int): string {
    if Parts(seconds) == [] then "0" else Join(Parts(seconds))
  }

  /** `secondsToHumanString` */
  method SecondsToHumanString(seconds: int) returns (s: string)
    ensures s == HumanString(seconds)
  {
    var years := FloorDiv(seconds, YEAR);
    var days := FloorDiv(Remainder(seconds, YEAR), DAY);
    var hours := FloorDiv(Remainder(Remainder(seconds, YEAR), DAY), HOUR);
    var minutes := FloorDiv(Remainder(Remainder(Remainder(seconds, YEAR), DAY), HOUR), MINUTE);
    var numSeconds := Remainder(Remainder(Remainder(Remainder(seconds, YEAR), DAY), HOUR), MINUTE);
    var result: seq<Part> := [];
    if years > 0 { result := result + [Part(years, 'y')]; }
    assert result == PositivePart(years, 'y');
    if days > 0 { result := result + [Part(days, 'd')]; }
    assert result == PositivePart(years, 'y') + PositivePart(days, 'd');
    if hours > 0 { result := result + [Part(hours, 'h')]; }
    assert result == PositivePart(years, 'y') + PositivePart(days, 'd') + PositivePart(hours, 'h');
    if minutes > 0 { result := result + [Part(minutes, 'm')]; }
    if numSeconds > 0 { result := result + [Part(numSeconds, 's')]; }
    assert result == Parts(seconds);
    if |result| == 0 { return "0"; }
    return Join(result);
  }

  /** `getRemainingTime`: ten seconds a block. */
  method GetRemainingTime(currentHeight: int, observedHeight: int) returns (s: string)
    ensures s == HumanString((observedHeight - currentHeight) * 10)
  {
    s := SecondsToHumanString((observedHeight - currentHeight) * 10);
  }

  // Reading a duration back.

  function UnitSeconds(unit: char): nat {
    if unit == 'y' then YEAR else if unit == 'd' then DAY else if unit == 'h' then HOUR
    else if unit == 'm' then MINUTE else if unit == 's' then 1 else 0
  }

  /** The fields of a text, with a number under way: digits, and a letter that closes a field. */
  function ReadOn(s: string, number: nat): seq<Part> {
    if s == "" then []
    else if '0' <= s[0] <= '9' then ReadOn(s[1..], 10 * number + DigitValue(s[0]))
    else if s[0] == ' ' then ReadOn(s[1..], number)
    else [Part(number, s[0])] + ReadOn(s[1..], 0)
  }

  function ReadFields(s: string): seq<Part> {
    ReadOn(s, 0)
  }

  /** The seconds that a text stands for. */
  function ReadDuration(s: string): int {
    Sum(PartSeconds, ReadFields(s))
  }

  lemma {:induction false} ReadDigitsOn(digits: string, rest: string, number: nat)
    requires forall i :: 0 <= i < |digits| ==> '0' <= digits[i] <= '9'
    ensures ReadOn(digits + rest, number) == ReadOn(rest, ReadDigits(digits, number))
  {
    if digits == "" {
      assert digits + rest == rest;
    } else {
      assert (digits + rest)[1..] == digits[1..] + rest;
      ReadDigitsOn(digits[1..], rest, 10 * number + DigitValue(digits[0]));
    }
  }

  function PartSeconds(p: Part): int {
    p.count * UnitSeconds(p.unit)
  }

  predicate IsUnit(c: char) {
    c == 'y' || c == 'd' || c == 'h' || c == 'm' || c == 's'
  }

  lemma ReadPart(p: Part, rest: string)
    requires IsUnit(p.unit)
    ensures ReadOn(PartText(p) + rest, 0) == [p] + ReadOn(rest, 0)
  {
    PrintParse(p.count);
    assert PartText(p) + rest == Print(p.count) + ([p.unit] + rest);
    ReadDigitsOn(Print(p.count), [p.unit] + rest, 0);
    assert ([p.unit] + rest)[1..] == rest;
  }

  /** The fields read from a joined text are the fields that were joined. */
  lemma {:induction false} ReadJoin(parts: seq<Part>)
    requires forall i :: 0 <= i < |parts| ==> IsUnit(parts[i].unit)
    ensures ReadFields(Join(parts)) == parts
    decreases |parts|
  {
    if parts == [] {
    } else if |parts| == 1 {
      ReadPart(parts[0], "");
      assert PartText(parts[0]) + "" == PartText(parts[0]);
    } else {
      var rest := " " + Join(parts[1..]);
      ReadPart(parts[0], rest);
      assert PartText(parts[0]) + " " + Join(parts[1..]) == PartText(parts[0]) + rest;
      assert rest[1..] == Join(parts[1..]);
      ReadJoin(parts[1..]);
    }
  }

  lemma SumPositivePart(count: int, unit: char)
    ensures Sum(PartSeconds, PositivePart(count, unit)) == if count > 0 then count * UnitSeconds(unit) else 0
  {
    if count > 0 { SumOne(PartSeconds, Part(count, unit)); }
  }

  lemma SumFive(a: seq<Part>, b: seq<Part>, c: seq<Part>, d: seq<Part>, e: seq<Part>)
    ensures Sum(PartSeconds, a + b + c + d + e)
      == Sum(PartSeconds, a) + Sum(PartSeconds, b) + Sum(PartSeconds, c) + Sum(PartSeconds, d) + Sum(PartSeconds, e)
  {
    SumAppend(PartSeconds, a + b + c + d, e);
    SumAppend(PartSeconds, a + b + c, d);
    SumAppend(PartSeconds, a + b, c);
    SumAppend(PartSeconds, a, b);
  }

  lemma FieldsAddUp(y: nat, d: nat, h: nat, m: nat, s: nat)
    ensures Sum(PartSeconds, PositivePart(y, 'y') + PositivePart(d, 'd') + PositivePart(h, 'h')
        + PositivePart(m, 'm') + PositivePart(s, 's'))
      == y * YEAR + d * DAY + h * HOUR + m * MINUTE + s
  {
    SumPositivePart(y, 'y');
    SumPositivePart(d, 'd');
    SumPositivePart(h, 'h');
    SumPositivePart(m, 'm');
    SumPositivePart(s, 's');
    SumFive(
      PositivePart(y, 'y'), PositivePart(d, 'd'), PositivePart(h, 'h'), PositivePart(m, 'm'), PositivePart(s, 's'));
  }

  /** The fields add up to the whole. */
  lemma PartsAddUp(seconds: nat)
    ensures Sum(PartSeconds, Parts(seconds)) == seconds
  {
    var inYear := seconds % YEAR;
    var inDay := inYear % DAY;
    var inHour := inDay % HOUR;
    FieldsAddUp(seconds / YEAR, inYear / DAY, inDay / HOUR, inHour / MINUTE, inHour % MINUTE);
  }

  /** The largest count a field other than years may print. */
  function Limit(unit: char): nat {
    if unit == 'd' then 365 else if unit == 'h' then 24 else 60
  }

  lemma PartsBounded(seconds: int, p: Part)
    requires p in Parts(seconds)
    ensures IsUnit(p.unit) && p.count > 0 && (p.unit != 'y' ==> p.count < Limit(p.unit))
  {
    var inYear := Remainder(seconds, YEAR);
    var inDay := Remainder(inYear, DAY);
    var inHour := Remainder(inDay, HOUR);
    assert p in PositivePart(FloorDiv(seconds, YEAR), 'y') || p in PositivePart(FloorDiv(inYear, DAY), 'd')
      || p in PositivePart(FloorDiv(inDay, HOUR), 'h') || p in PositivePart(FloorDiv(inHour, MINUTE), 'm')
      || p in PositivePart(Remainder(inHour, MINUTE), 's');
  }

  /** Nothing is printed exactly for the durations that are not positive. */
  lemma PartsEmpty(seconds: int)
    ensures Parts(seconds) == [] <==> seconds <= 0
  {
    if seconds > 0 {
      PartsAddUp(seconds);
    } else {
      var inYear := Remainder(seconds, YEAR);
      var inDay := Remainder(inYear, DAY);
      var inHour := Remainder(inDay, HOUR);
      assert inYear <= 0 && inDay <= 0 && inHour <= 0;
    }
  }

  /** Each unit is printed once, the larger before the smaller. */
  lemma PartsDescend(seconds: int, i: nat, j: nat)
    requires i < j < |Parts(seconds)|
    ensures UnitSeconds(Parts(seconds)[i].unit) > UnitSeconds(Parts(seconds)[j].unit)
  {
  }

  /**
   The text of a duration reads back as that duration. The fields read from it are in range,
   none is zero, and units descend; '0' stands for everything that is not positive.
  */
  lemma HumanStringReadsBack(seconds: int)
    ensures var fields := ReadFields(HumanString(seconds));
      && ReadDuration(HumanString(seconds)) == (if seconds > 0 then seconds else 0)
      && (forall p :: p in fields ==> IsUnit(p.unit) && p.count > 0 && (p.unit != 'y' ==> p.count < Limit(p.unit)))
      && (forall i, j :: 0 <= i < j < |fields| ==> UnitSeconds(fields[i].unit) > UnitSeconds(fields[j].unit))
    ensures seconds <= 0 <==> HumanString(seconds) == "0"
  {
    forall p | p in Parts(seconds)
      ensures IsUnit(p.unit) && p.count > 0 && (p.unit != 'y' ==> p.count < Limit(p.unit)) {
      PartsBounded(seconds, p);
    }
    forall i, j | 0 <= i < j < |Parts(seconds)|
      ensures UnitSeconds(Parts(seconds)[i].unit) > UnitSeconds(Parts(seconds)[j].unit) {
      PartsDescend(seconds, i, j);
    }
    PartsEmpty(seconds);
    ReadZero();
    if seconds > 0 {
      PartsAddUp(seconds);
      ReadJoin(Parts(seconds));
    }
  }

  lemma ReadZero()
    ensures ReadFields("0") == []
  {
    assert "0"[1..] == "";
    assert ReadOn("0"[1..], 0) == [];
  }

  /** `split(' ')` */
  function Words(s: string): (words: seq<string>)
    ensures words != []
  {
    if s == "" then [""]
    else if s[0] == ' ' then [""] + Words(s[1..])
    else
      var words := Words(s[1..]);
      [[s[0]] + words[0]] + words[1..]
  }

  predicate NoBlank(s: string) {
    forall i :: 0 <= i < |s| ==> s[i] != ' '
  }

  lemma {:induction false} WordsFirst(word: string, rest: string)
    requires NoBlank(word) && (rest == "" || rest[0] == ' ')
    ensures Words(word + rest) == [word] + (if rest == "" then [] else Words(rest[1..]))
  {
    if word == "" {
      assert word + rest == rest;
    } else {
      assert (word + rest)[1..] == word[1..] + rest;
      WordsFirst(word[1..], rest);
      assert word == [word[0]] + word[1..];
    }
  }

  lemma PartHasNoBlank(p: Part)
    requires IsUnit(p.unit)
    ensures NoBlank(PartText(p))
  {
  }

  /** The words are the numerals of the fields with their units. */
  predicate SpellFields(words: seq<string>, fields: seq<Part>) {
    && |words| == |fields|
    && forall i :: 0 <= i < |words| ==> words[i] == Print(fields[i].count) + [fields[i].unit]
  }

  lemma SpellOneMore(words: seq<string>, p: Part, parts: seq<Part>)
    requires SpellFields(words, parts)
    ensures SpellFields([PartText(p)] + words, [p] + parts)
  {
    forall i | 1 <= i < |parts| + 1
      ensures ([PartText(p)] + words)[i] == Print(([p] + parts)[i].count) + [([p] + parts)[i].unit] {
      assert words[i - 1] == Print(parts[i - 1].count) + [parts[i - 1].unit];
    }
  }

  lemma JoinCons(p: Part, parts: seq<Part>)
    requires parts != []
    ensures Join([p] + parts) == PartText(p) + (" " + Join(parts))
  {
    assert ([p] + parts)[1..] == parts;
  }

  lemma {:induction false} WordsOfJoin(parts: seq<Part>)
    requires parts != [] && forall i :: 0 <= i < |parts| ==> IsUnit(parts[i].unit)
    ensures SpellFields(Words(Join(parts)), parts)
  {
    var first := PartText(parts[0]);
    PartHasNoBlank(parts[0]);
    if |parts| == 1 {
      WordsFirst(first, "");
      assert first + "" == first;
    } else {
      var rest := " " + Join(parts[1..]);
      assert parts == [parts[0]] + parts[1..];
      JoinCons(parts[0], parts[1..]);
      WordsFirst(first, rest);
      assert rest[1..] == Join(parts[1..]);
      WordsOfJoin(parts[1..]);
      SpellOneMore(Words(Join(parts[1..])), parts[0], parts[1..]);
    }
  }

  /** Split at blanks, the text of a duration is the numerals of its fields with their units. */
  lemma HumanStringIsFields(seconds: int)
    requires seconds > 0
    ensures SpellFields(Words(HumanString(seconds)), ReadFields(HumanString(seconds)))
  {
    var parts := Parts(seconds);
    PartsEmpty(seconds);
    forall i | 0 <= i < |parts| ensures IsUnit(parts[i].unit) { PartsBounded(seconds, parts[i]); }
    ReadJoin(parts);
    WordsOfJoin(parts);
  }

  // ----- observeChainHeight -----

  /** The interval fires; the reply of one request in flight arrives; one request fails. */
  datatype Event = Tick | Reply(height: int) | Failure

  datatype Outcome = Waiting | Resolved(height: int) | Rejected

  datatype Poll = Poll(intervalActive: bool, inFlight: nat, outcome: Outcome)

  const STARTED: Poll := Poll(true, 0, Waiting)

  predicate Possible(p: Poll, e: Event) {
    if e.Tick? then p.intervalActive else p.inFlight > 0
  }

  /** A promise settles once; later `resolve` and `reject` calls do nothing. */
  function After(target: int, p: Poll, e: Event): Poll
    requires Possible(p, e)
  {
    match e
    case Tick => p.(inFlight := p.inFlight + 1)
    case Failure => p.(inFlight := p.inFlight - 1, outcome := if p.outcome.Waiting? then Rejected else p.outcome)
    case Reply(height) =>
      if height >= target then
        Poll(false, p.inFlight - 1, if p.outcome.Waiting? then Resolved(height) else p.outcome)
      else p.(inFlight := p.inFlight - 1)
  }

  ghost predicate PossibleRun(target: int, p: Poll, events: seq<Event>)
    decreases |events|
  {
    events == [] || (Possible(p, events[0]) && PossibleRun(target, After(target, p, events[0]), events[1..]))
  }

  ghost function RunPoll(target: int, p: Poll, events: seq<Event>): Poll
    requires PossibleRun(target, p, events)
    decreases |events|
  {
    if events == [] then p else RunPoll(target, After(target, p, events[0]), events[1..])
  }

  ghost predicate Reached(target: int, e: Event) {
    e.Reply? && e.height >= target
  }

  function Ticks(events: seq<Event>): nat {
    if events == [] then 0 else (if events[0].Tick? then 1 else 0) + Ticks(events[1..])
  }

  /** Replies and failures. */
  function Answers(events: seq<Event>): nat {
    if events == [] then 0 else (if events[0].Tick? then 0 else 1) + Answers(events[1..])
  }

  ghost predicate ReachedBefore(target: int, events: seq<Event>, i: int)
    requires i <= |events|
  {
    exists j :: 0 <= j < i && Reached(target, events[j])
  }

  /**
   The i-th event can occur: the interval fires as long as no reply has reached the target, and
   an answer belongs to an earlier tick that has not been answered.
  */
  ghost predicate CanOccur(target: int, p: Poll, events: seq<Event>, i: nat)
    requires i < |events|
  {
    if events[i].Tick? then p.intervalActive && !ReachedBefore(target, events, i)
    else Answers(events[..i]) < p.inFlight + Ticks(events[..i])
  }

  lemma OccursInTail(target: int, p: Poll, events: seq<Event>, i: nat)
    requires 0 < i < |events| && Possible(p, events[0])
    ensures CanOccur(target, p, events, i) <==> CanOccur(target, After(target, p, events[0]), events[1..], i - 1)
  {
    var tail := events[1..];
    assert events[..i][1..] == tail[..i - 1] && events[..i][0] == events[0];
    assert tail[i - 1] == events[i];
    if ReachedBefore(target, events, i) {
      var j :| 0 <= j < i && Reached(target, events[j]);
      assert j > 0 ==> Reached(target, tail[j - 1]);
    }
    if ReachedBefore(target, tail, i - 1) {
      var j :| 0 <= j < i - 1 && Reached(target, tail[j]);
      assert Reached(target, events[j + 1]);
    }
    if Reached(target, events[0]) { assert ReachedBefore(target, events, i); }
  }

  /** Which runs are possible. */
  lemma {:induction false} PossibleRunIff(target: int, p: Poll, events: seq<Event>)
    ensures PossibleRun(target, p, events) <==> forall i: nat :: i < |events| ==> CanOccur(target, p, events, i)
    decreases |events|
  {
    if events == [] {
    } else {
      assert CanOccur(target, p, events, 0) <==> Possible(p, events[0]) by { assert events[..0] == []; }
      if Possible(p, events[0]) {
        var q, tail := After(target, p, events[0]), events[1..];
        PossibleRunIff(target, q, tail);
        forall i: nat | 0 < i < |events|
          ensures CanOccur(target, p, events, i) <==> CanOccur(target, q, tail, i - 1) {
          OccursInTail(target, p, events, i);
        }
        if forall i: nat :: i < |events| ==> CanOccur(target, p, events, i) {
          forall i: nat | i < |tail| ensures CanOccur(target, q, tail, i) {
            assert CanOccur(target, p, events, i + 1);
          }
        }
      }
    }
  }

  /** From the start: ticks until a reply reaches the target, and fewer answers than ticks before each answer. */
  lemma StartedRunIff(target: int, events: seq<Event>)
    ensures PossibleRun(target, STARTED, events) <==> forall i: nat :: i < |events| ==>
      if events[i].Tick? then !ReachedBefore(target, events, i) else Answers(events[..i]) < Ticks(events[..i])
  {
    PossibleRunIff(target, STARTED, events);
    forall i: nat | i < |events|
      ensures CanOccur(target, STARTED, events, i) <==>
        if events[i].Tick? then !ReachedBefore(target, events, i) else Answers(events[..i]) < Ticks(events[..i]) {
    }
  }

  /** Index of the first event that settles the promise. */
  ghost predicate SettlesAt(target: int, events: seq<Event>, i: nat) {
    && i < |events| && (Reached(target, events[i]) || events[i].Failure?)
    && forall j :: 0 <= j < i ==> !Reached(target, events[j]) && !events[j].Failure?
  }

  lemma {:induction false} SettledStays(target: int, p: Poll, events: seq<Event>)
    requires PossibleRun(target, p, events) && !p.outcome.Waiting?
    ensures RunPoll(target, p, events).outcome == p.outcome
    decreases |events|
  {
    if events == [] {
    } else {
      SettledStays(target, After(target, p, events[0]), events[1..]);
    }
  }

  /** The outcome is that of the first event that can settle it, whatever overlaps. */
  lemma {:induction false} FirstSettles(target: int, p: Poll, events: seq<Event>)
    requires PossibleRun(target, p, events) && p.outcome.Waiting?
    ensures RunPoll(target, p, events).outcome.Waiting? <==> forall i: nat :: !SettlesAt(target, events, i)
    ensures forall i: nat :: SettlesAt(target, events, i) ==>
      RunPoll(target, p, events).outcome == if events[i].Reply? then Resolved(events[i].height) else Rejected
    decreases |events|
  {
    if events == [] {
    } else {
      var q := After(target, p, events[0]);
      if q.outcome.Waiting? {
        FirstSettles(target, q, events[1..]);
        forall i: nat | SettlesAt(target, events, i) ensures i > 0 && SettlesAt(target, events[1..], i - 1) {
          assert events[1..][i - 1] == events[i];
          forall j | 0 <= j < i - 1 ensures !Reached(target, events[1..][j]) && !events[1..][j].Failure? {
            assert events[1..][j] == events[j + 1];
          }
        }
        forall i: nat | SettlesAt(target, events[1..], i) ensures SettlesAt(target, events, i + 1) {
          forall j | 0 <= j < i + 1 ensures !Reached(target, events[j]) && !events[j].Failure? {
            assert j > 0 ==> events[j] == events[1..][j - 1];
          }
        }
      } else {
        SettledStays(target, q, events[1..]);
        assert SettlesAt(target, events, 0);
        forall i: nat | SettlesAt(target, events, i) ensures i == 0 {}
      }
    }
  }

  /** The interval is cleared by a reply that reaches the target, and by nothing else. */
  lemma {:induction false} IntervalCleared(target: int, p: Poll, events: seq<Event>)
    requires PossibleRun(target, p, events)
    ensures RunPoll(target, p, events).intervalActive
      <==> p.intervalActive && forall i :: 0 <= i < |events| ==> !Reached(target, events[i])
    decreases |events|
  {
    if events == [] {
    } else {
      IntervalCleared(target, After(target, p, events[0]), events[1..]);
      assert events == [events[0]] + events[1..];
    }
  }

  /** What `observeChainHeight` does when its promise has settled. */
  datatype Observed = Height(height: int) | Error | StillWaiting

  /** The first query answers with the start height, or fails. */
  ghost predicate Begins(first: Option<int>, target: int, events: seq<Event>) {
    first.Some? && first.value < target ==> PossibleRun(target, STARTED, events)
  }

  ghost function Observe(first: Option<int>, target: int, events: seq<Event>): Observed
    requires Begins(first, target, events)
  {
    match first
    case None => Error
    case Some(start) =>
      if start >= target then Height(start)
      else match RunPoll(target, STARTED, events).outcome
        case Waiting => StillWaiting
        case Resolved(_) => Height(target)
        case Rejected => Error
  }

  /**
   A normal return means that the node had reached the target, at the start or in a reply,
   with no failure before; the value returned is the larger of the start and the target, so it
   is never below the target. An error means that a query failed before that.
  */
  lemma NormalReturnMeansReached(first: Option<int>, target: int, events: seq<Event>)
    requires Begins(first, target, events)
    ensures Observe(first, target, events).Height? <==>
      first.Some? && (first.value >= target || exists i: nat :: SettlesAt(target, events, i) && events[i].Reply?)
    ensures Observe(first, target, events).Height? ==>
      Observe(first, target, events).height == if first.value >= target then first.value else target
    ensures Observe(first, target, events) == Error <==>
      first == None || (first.value < target && exists i: nat :: SettlesAt(target, events, i) && events[i].Failure?)
  {
    if first.Some? && first.value < target {
      FirstSettles(target, STARTED, events);
      var outcome := RunPoll(target, STARTED, events).outcome;
      if !outcome.Waiting? {
        var i: nat :| SettlesAt(target, events, i);
        assert events[i].Reply? || events[i].Failure?;
        forall j: nat | SettlesAt(target, events, j) ensures j == i { if i < j {} else if j < i {} }
      }
    }
  }

  /** A rejected wait leaves the interval running until some reply reaches the target. */
  lemma RejectionKeepsPolling(target: int, events: seq<Event>)
    requires PossibleRun(target, STARTED, events) && RunPoll(target, STARTED, events).outcome == Rejected
    ensures Possible(RunPoll(target, STARTED, events), Tick)
      <==> forall i :: 0 <= i < |events| ==> !Reached(target, events[i])
  {
    IntervalCleared(target, STARTED, events);
  }

  /** A failed first poll: the wait is over with an error, and the interval still fires. */
  lemma FailedPollGoesOn(target: int)
    ensures var events := [Tick, Failure];
      && PossibleRun(target, STARTED, events)
      && RunPoll(target, STARTED, events).outcome == Rejected
      && Possible(RunPoll(target, STARTED, events), Tick)
  {
    var polled := After(target, STARTED, Tick);
    var failed := After(target, polled, Failure);
    assert [Tick, Failure][1..] == [Failure] && [Failure][1..] == [];
    assert PossibleRun(target, failed, [Failure][1..]) && RunPoll(target, failed, [Failure][1..]) == failed;
    assert PossibleRun(target, polled, [Failure]) && RunPoll(target, polled, [Failure]) == failed;
  }

  function Replies(events: seq<Event>): seq<int> {
    if events == [] then []
    else (if events[0].Reply? then [events[0].height] else []) + Replies(events[1..])
  }

  lemma {:induction false} RepliesOccur(events: seq<Event>, i: nat)
    requires i < |Replies(events)|
    ensures Reply(Replies(events)[i]) in events
  {
    assert events == [events[0]] + events[1..];
    if events[0].Reply? && i == 0 {
    } else {
      RepliesOccur(events[1..], if events[0].Reply? then i - 1 else i);
    }
  }

  /** The height grows by at least one over every `k` replies. */
  ghost predicate Grows(start: int, k: nat, replies: seq<int>)
    requires k > 0
  {
    && (k <= |replies| ==> replies[k - 1] >= start + 1)
    && forall i :: k <= i < |replies| ==> replies[i] >= replies[i - k] + 1
  }

  lemma {:induction false} GrowthAdds(start: int, k: nat, replies: seq<int>, rounds: nat)
    requires k > 0 && rounds > 0 && Grows(start, k, replies) && k * rounds <= |replies|
    ensures 0 <= k * rounds - 1 && replies[k * rounds - 1] >= start + rounds
    decreases rounds
  {
    assert k * rounds == k * (rounds - 1) + k;
    if rounds == 1 {
    } else {
      assert k * (rounds - 1) >= k by { assert k * (rounds - 2) >= 0; }
      GrowthAdds(start, k, replies, rounds - 1);
    }
  }

  /**
   Growth settles the wait: k * (target - start) replies suffice, whatever fails meanwhile. The
   wait ends normally exactly when every failure comes after a reply at the target.
  */
  lemma GrowthSettles(start: int, target: int, k: nat, events: seq<Event>)
    requires start < target && k > 0 && PossibleRun(target, STARTED, events)
    requires Grows(start, k, Replies(events)) && |Replies(events)| >= k * (target - start)
    ensures Observe(Some(start), target, events) != StillWaiting
    ensures Observe(Some(start), target, events) == Height(target)
      <==> forall i :: 0 <= i < |events| && events[i].Failure? ==> ReachedBefore(target, events, i)
  {
    GrowthAdds(start, k, Replies(events), target - start);
    var n := k * (target - start) - 1;
    RepliesOccur(events, n);
    var i :| 0 <= i < |events| && events[i] == Reply(Replies(events)[n]);
    var j := FirstSettling(target, events, i);
    FirstSettles(target, STARTED, events);
    if events[j].Reply? {
      forall f | 0 <= f < |events| && events[f].Failure? ensures ReachedBefore(target, events, f) {
        assert Reached(target, events[j]) && j < f;
      }
    }
  }

  lemma {:induction false} FirstSettling(target: int, events: seq<Event>, i: nat) returns (j: nat)
    requires i < |events| && (Reached(target, events[i]) || events[i].Failure?)
    ensures SettlesAt(target, events, j)
    decreases i
  {
    if k :| 0 <= k < i && (Reached(target, events[k]) || events[k].Failure?) {
      j := FirstSettling(target, events, k);
    } else {
      j := i;
    }
  }

  /** The poller: `clearInterval`, `resolve` and `reject` as field updates. */
  class Poller {
    const target: int
    var intervalActive: bool
    var inFlight: nat
    var outcome: Outcome

    ghost function View(): Poll
      reads this
    {
      Poll(intervalActive, inFlight, outcome)
    }

    constructor (target: int)
      ensures View() == STARTED && this.target == target
    {
      this.target := target;
      intervalActive, inFlight, outcome := true, 0, Waiting;
    }

    /** The interval calls `checkHeight`, which asks the node. */
    method OnTick()
      requires Possible(View(), Tick)
      modifies this
      ensures View() == After(target, old(View()), Tick)
    {
      inFlight := inFlight + 1;
    }

    method OnReply(height: int)
      requires Possible(View(), Reply(height))
      modifies this
      ensures View() == After(target, old(View()), Reply(height))
    {
      inFlight := inFlight - 1;
      if height >= target {
        intervalActive := false;
        if outcome.Waiting? { outcome := Resolved(height); }
      }
    }

    method OnFailure()
      requires Possible(View(), Failure)
      modifies this
      ensures View() == After(target, old(View()), Failure)
    {
      inFlight := inFlight - 1;
      if outcome.Waiting? { outcome := Rejected; }
    }
  }

  /** `observeChainHeight`: its first query, then the events up to some moment. */
  method ObserveChainHeight(first: Option<int>, target: int, events: seq<Event>) returns (r: Observed)
    requires Begins(first, target, events)
    ensures r == Observe(first, target, events)
  {
    if first == None {
      return Error;
    }
    if first.value >= target {
      return Height(first.value);
    }
    var poller := new Poller(target);
    assert events[0..] == events;
    for i := 0 to |events|
      invariant poller.target == target && PossibleRun(target, poller.View(), events[i..])
      invariant RunPoll(target, poller.View(), events[i..]) == RunPoll(target, STARTED, events)
    {
      assert events[i..][1..] == events[i + 1..];
      match events[i]
      case Tick => poller.OnTick();
      case Reply(height) => poller.OnReply(height);
      case Failure => poller.OnFailure();
    }
    match poller.outcome
    case Waiting => return StillWaiting;
    case Resolved(_) => return Height(target);
    case Rejected => return Error;
  }
}
