/** getopt: a resumable scan over an argument array that it reorders, options first. */
module OptionParser {
  import opened Arithmetic
  import opened Prelude

  datatype Requirement = NoArgument | HasOptionalArgument | HasRequiredArgument

  datatype OptionId = Short(letter: char) | Long(index: nat)

  /** One option as it is reported to the caller, with its value. */
  datatype Report = Report(id: OptionId, value: Option<string>)

  datatype LongSpec = LongSpec(name: string, requirement: Requirement)

  /** The letters with colons after those that take an argument, and the table of long options. */
  datatype Options = Options(shortOptions: string, longOptions: seq<LongSpec>)
  {
    /** A plus at the start of the letters turns the reordering off. */
    predicate Stops() {
      StartsWith(shortOptions, "+")
    }
  }

  // ----- single arguments -----

  predicate StartsWith(s: string, prefix: string) {
    |prefix| <= |s| && s[..|prefix|] == prefix
  }

  /** Anything that does not start with a dash, and a single dash. */
  predicate NonOption(arg: string) {
    !StartsWith(arg, "-") || arg == "-"
  }

  predicate IsOption(arg: string) {
    !NonOption(arg) && arg != "--"
  }

  predicate IsLong(arg: string) {
    StartsWith(arg, "--")
  }

  // ----- the lookups -----

  function IndexOf(s: string, c: char): (i: nat)
    requires c in s
    ensures i < |s| && s[i] == c && c !in s[..i]
  {
    if s[0] == c then 0
    else
      var i := 1 + IndexOf(s[1..], c);
      assert s[..i] == [s[0]] + s[1..][..i - 1];
      i
  }

  /** The parts between the occurrences of a letter, empty ones included. */
  function Parts(s: string, c: char): (parts: seq<string>)
    ensures |parts| >= 1
  {
    if c !in s then [s] else [s[..IndexOf(s, c)]] + Parts(s[IndexOf(s, c) + 1..], c)
  }

  /** split_view, keeping empty parts: an empty text has none. */
  function SplitView(s: string, c: char): (parts: seq<string>) {
    if s == "" then [] else Parts(s, c)
  }

  /** What a lookup of a letter comes to; a letter listed twice fails a VERIFY. */
  datatype ShortLookup = Unknown | Known(requirement: Requirement) | Ambiguous

  /** lookup_short_option_requirement */
  function LookupShort(shortOptions: string, letter: char): (found: ShortLookup) {
    var parts := SplitView(shortOptions, letter);
    if |parts| > 2 then Ambiguous
    else if |parts| < 2 then Unknown
    else if StartsWith(parts[1], "::") then Known(HasOptionalArgument)
    else if StartsWith(parts[1], ":") then Known(HasRequiredArgument)
    else Known(NoArgument)
  }

  lemma {:induction false} IndexOfFirst(s: string, c: char, i: nat)
    requires i < |s| && s[i] == c && c !in s[..i]
    ensures IndexOf(s, c) == i
  {
    if i > 0 {
      assert s[0] in s[..i];
      assert s[1..][..i - 1] == s[..i][1..];
      IndexOfFirst(s[1..], c, i - 1);
    }
  }

  lemma PartsFirst(before: string, c: char, rest: string)
    requires c !in before
    ensures Parts(before + [c] + rest, c) == [before] + Parts(rest, c)
  {
    hide IndexOf;
    var s := before + [c] + rest;
    assert s[|before|] == c && s[..|before|] == before && s[|before| + 1..] == rest;
    IndexOfFirst(s, c, |before|);
  }

  /** A letter that is not listed, one that is listed once, and one that is listed more than once. */
  lemma LookupShortCases(before: string, letter: char, rest: string)
    requires letter !in before
    ensures LookupShort(before, letter) == Unknown
    ensures letter in rest ==> LookupShort(before + [letter] + rest, letter) == Ambiguous
    ensures var requirement :=
              if |rest| >= 2 && rest[0] == ':' && rest[1] == ':' then HasOptionalArgument
              else if |rest| >= 1 && rest[0] == ':' then HasRequiredArgument
              else NoArgument;
            letter !in rest ==> LookupShort(before + [letter] + rest, letter) == Known(requirement)
  {
    hide IndexOf;
    PartsFirst(before, letter, rest);
  }

  /** Either the long option alone, or with an equals sign after its name. */
  predicate Fits(name: string, arg: string) {
    StartsWith(arg, name) && (|arg| == |name| || arg[|name|] == '=')
  }

  /** The first long option from `from` on that fits. */
  function FirstLong(longOptions: seq<LongSpec>, arg: string, from: nat): (index: Option<nat>)
    requires from <= |longOptions|
    ensures index.Some? ==> from <= index.value < |longOptions| && Fits(longOptions[index.value].name, arg)
    decreases |longOptions| - from
  {
    if from == |longOptions| then None
    else if Fits(longOptions[from].name, arg) then Some(from)
    else FirstLong(longOptions, arg, from + 1)
  }

  /** The value after the equals sign, if there is one. */
  function ValueAfter(name: string, arg: string): (value: Option<string>)
    requires Fits(name, arg)
  {
    if |arg| == |name| then None else Some(arg[|name| + 1..])
  }

  /** lookup_long_option: the index of the option, and its value if one is given. */
  method LookupLong(longOptions: seq<LongSpec>, arg: string) returns (found: Option<nat>, value: Option<string>)
    ensures found == FirstLong(longOptions, arg, 0)
    ensures found.Some? ==> value == ValueAfter(longOptions[found.value].name, arg)
  {
    for index := 0 to |longOptions|
      invariant FirstLong(longOptions, arg, 0) == FirstLong(longOptions, arg, index)
    {
      var name := longOptions[index].name;
      if !StartsWith(arg, name) {
        continue;
      }
      if |arg| == |name| {
        return Some(index), None;
      }
      if arg[|name|] == '=' {
        return Some(index), Some(arg[|name| + 1..]);
      }
    }
    return None, None;
  }

  // ----- single options -----

  /**
   * One option taken off the front: its report, the arguments it uses up, and where a cluster of letters goes on. Or
   * an error, or a failed VERIFY.
   */
  datatype Step = Failed | Crashed | Taken(report: Report, consumed: nat, next: nat)

  /** The letter at position i of a cluster; `following` is the argument after it, if any. */
  function ShortStep(options: Options, arg: string, i: nat, following: Option<string>): (s: Step)
    requires i < |arg|
    ensures s.Taken? ==> s.consumed <= 2 && (s.consumed == 2 ==> following.Some?)
    ensures s.Taken? && s.consumed == 0 ==> i < s.next < |arg|
    ensures s.Taken? && s.consumed > 0 ==> s.next == 0
  {
    match LookupShort(options.shortOptions, arg[i])
    case Unknown => Failed
    case Ambiguous => Crashed
    case Known(requirement) =>
      var id := Short(arg[i]);
      if i + 1 < |arg| then
        if requirement == NoArgument then Taken(Report(id, None), 0, i + 1)
        else Taken(Report(id, Some(arg[i + 1..])), 1, 0)
      else if requirement != HasRequiredArgument then Taken(Report(id, Some("")), 1, 0)
      else if following.Some? then Taken(Report(id, following), 2, 0)
      else Failed
  }

  function LongStep(options: Options, arg: string, following: Option<string>): (s: Step)
    requires IsLong(arg)
    ensures s.Taken? ==> 1 <= s.consumed <= 2 && s.next == 0 && (s.consumed == 2 ==> following.Some?)
    ensures !s.Crashed?
  {
    var found := FirstLong(options.longOptions, arg[2..], 0);
    if found.None? then Failed
    else
      var id, option := Long(found.value), options.longOptions[found.value];
      var value := ValueAfter(option.name, arg[2..]);
      match option.requirement
      case NoArgument => if value.Some? then Failed else Taken(Report(id, None), 1, 0)
      case HasOptionalArgument => Taken(Report(id, value), 1, 0)
      case HasRequiredArgument =>
        if value.Some? then Taken(Report(id, value), 1, 0)
        else if following.Some? then Taken(Report(id, following), 2, 0)
        else Failed
  }

  // ----- the whole line, without any reordering -----

  function Following(line: seq<string>): (arg: Option<string>) {
    if |line| > 1 then Some(line[1]) else None
  }

  /** A cluster position that makes sense for this line: none, or inside a short option at the front. */
  predicate Resumable(line: seq<string>, at: nat) {
    at == 0 || (line != [] && IsOption(line[0]) && !IsLong(line[0]) && at < |line[0]|)
  }

  /** The option at the front of the line, at letter `at` of a cluster. */
  function FirstStep(options: Options, line: seq<string>, at: nat): (s: Step)
    requires line != [] && IsOption(line[0]) && Resumable(line, at)
    ensures s.Taken? ==> s.consumed <= |line| && s.consumed <= 2
    ensures s.Taken? && s.consumed == 0 ==> !IsLong(line[0]) && Max(at, 1) < s.next < |line[0]|
    ensures s.Taken? && s.consumed > 0 ==> s.next == 0
  {
    if IsLong(line[0]) then LongStep(options, line[0], Following(line))
    else ShortStep(options, line[0], if at == 0 then 1 else at, Following(line))
  }

  /**
   * What a line means: its options with their values in order, the arguments they use, the double dash if there is
   * one, the other arguments before it, and all that follows it.
   */
  datatype Meaning = Wrong | Meaning(reports: seq<Report>, used: seq<string>, dashes: seq<string>,
                                     skipped: seq<string>, tail: seq<string>)

  function Read(options: Options, line: seq<string>, at: nat): (m: Meaning)
    requires Resumable(line, at)
    decreases |line|, if line == [] then 0 else |line[0]| - at
  {
    if line == [] then Meaning([], [], [], [], [])
    else if NonOption(line[0]) then
      if options.Stops() then Meaning([], [], [], [], line)
      else
        match Read(options, line[1..], 0)
        case Wrong => Wrong
        case Meaning(reports, used, dashes, skipped, tail) => Meaning(reports, used, dashes, [line[0]] + skipped, tail)
    else if line[0] == "--" then Meaning([], [], ["--"], [], line[1..])
    else
      match FirstStep(options, line, at)
      case Failed => Wrong
      case Crashed => Wrong
      case Taken(report, consumed, next) =>
        var rest := if consumed == 0 then Read(options, line, next) else Read(options, line[consumed..], 0);
        match rest
        case Wrong => Wrong
        case Meaning(reports, used, dashes, skipped, tail) =>
          Meaning([report] + reports, line[..consumed] + used, dashes, skipped, tail)
  }

  /** The line reordered: options first. */
  function Reordered(m: Meaning): (line: seq<string>)
    requires m.Meaning?
  {
    m.used + m.dashes + m.skipped + m.tail
  }

  // ----- the meaning of a run that is under way -----

  /** The meaning of a line, given what was reported, used and skipped before it. */
  function After(reports: seq<Report>, used: seq<string>, skipped: seq<string>, m: Meaning): (whole: Meaning) {
    if m.Wrong? then Wrong
    else Meaning(reports + m.reports, used + m.used, m.dashes, skipped + m.skipped, m.tail)
  }

  ghost predicate AllNonOptions(s: seq<string>) {
    forall i :: 0 <= i < |s| ==> NonOption(s[i])
  }

  lemma SkipsOne(options: Options, arg: string, line: seq<string>)
    requires !options.Stops() && NonOption(arg)
    ensures Read(options, [arg] + line, 0) == After([], [], [arg], Read(options, line, 0))
  {
    hide FirstStep;
    assert ([arg] + line)[1..] == line;
  }

  /** Arguments that are no options are passed over. */
  lemma {:induction false} Skips(options: Options, skipped: seq<string>, line: seq<string>)
    requires !options.Stops() && AllNonOptions(skipped)
    ensures Read(options, skipped + line, 0) == After([], [], skipped, Read(options, line, 0))
  {
    hide Read;
    if skipped == [] {
      AfterNothing(Read(options, line, 0));
      assert skipped + line == line;
    } else {
      var rest := skipped[1..];
      Skips(options, rest, line);
      SkipsOne(options, skipped[0], rest + line);
      AfterAfter([], [], [skipped[0]], [], [], rest, Read(options, line, 0));
      assert [skipped[0]] + rest == skipped && [skipped[0]] + (rest + line) == skipped + line;
    }
  }

  lemma AfterNothing(m: Meaning)
    ensures After([], [], [], m) == m
  {
  }

  lemma Takes(options: Options, line: seq<string>, at: nat)
    requires Resumable(line, at) && line != [] && IsOption(line[0])
    ensures match FirstStep(options, line, at)
            case Failed => Read(options, line, at) == Wrong
            case Crashed => Read(options, line, at) == Wrong
            case Taken(report, consumed, next) =>
              && Resumable(line[consumed..], next)
              && Read(options, line, at) == After([report], line[..consumed], [], Read(options, line[consumed..], next))
  {
    hide ShortStep, LongStep;
    match FirstStep(options, line, at)
    case Failed =>
    case Crashed =>
    case Taken(report, consumed, next) =>
      if consumed == 0 {
        assert line[0..] == line;
      }
  }

  lemma AfterAfter(r1: seq<Report>, u1: seq<string>, s1: seq<string>, r2: seq<Report>, u2: seq<string>,
                   s2: seq<string>, m: Meaning)
    ensures After(r1, u1, s1, After(r2, u2, s2, m)) == After(r1 + r2, u1 + u2, s1 + s2, m)
  {
    if m.Meaning? {
      assert r1 + (r2 + m.reports) == (r1 + r2) + m.reports;
      assert u1 + (u2 + m.used) == (u1 + u2) + m.used;
      assert s1 + (s2 + m.skipped) == (s1 + s2) + m.skipped;
    }
  }

  /** The same arguments, and what follows the double dash stays where it is. */
  ghost predicate Conserved(line: seq<string>, m: Meaning)
    requires m.Meaning?
  {
    && multiset(Reordered(m)) == multiset(line)
    && |m.dashes| + |m.tail| <= |line| && line[|line| - (|m.dashes| + |m.tail|)..] == m.dashes + m.tail
  }

  lemma ConservedSkip(skipped: seq<string>, line: seq<string>, m: Meaning)
    requires m.Meaning? && Conserved(line, m)
    ensures Conserved(skipped + line, After([], [], skipped, m))
  {
    var end := |m.dashes| + |m.tail|;
    assert (skipped + line)[|skipped| + |line| - end..] == line[|line| - end..];
  }

  lemma ConservedTake(used: seq<string>, line: seq<string>, report: Report, m: Meaning)
    requires m.Meaning? && Conserved(line, m)
    ensures Conserved(used + line, After([report], used, [], m))
  {
    var end := |m.dashes| + |m.tail|;
    assert (used + line)[|used| + |line| - end..] == line[|line| - end..];
  }

  /** Reading a line loses nothing and invents nothing. */
  lemma {:induction false} ReadConserves(options: Options, line: seq<string>, at: nat)
    requires Resumable(line, at) && Read(options, line, at).Meaning?
    ensures Conserved(line, Read(options, line, at))
    decreases |line|, if line == [] then 0 else |line[0]| - at
  {
    hide Conserved, Read, ShortStep, LongStep, NonOption;
    if AtEnd(options, line) {
      EndConserves(options, line, at);
    } else if NonOption(line[0]) {
      assert [line[0]] + line[1..] == line;
      Skips(options, [line[0]], line[1..]);
      NeverResumed(line, at);
      ReadConserves(options, line[1..], 0);
      ConservedSkip([line[0]], line[1..], Read(options, line[1..], 0));
    } else {
      Takes(options, line, at);
      var step := FirstStep(options, line, at);
      assert line[..step.consumed] + line[step.consumed..] == line;
      assert step.consumed == 0 ==> line[step.consumed..] == line;
      ReadConserves(options, line[step.consumed..], step.next);
      ConservedTake(line[..step.consumed], line[step.consumed..], step.report,
                    Read(options, line[step.consumed..], step.next));
    }
  }

  // ----- the reordering is a stable partition -----

  /** The part is picked from the line at increasing positions. */
  ghost predicate Picked(line: seq<string>, part: seq<string>, from: seq<nat>) {
    && |from| == |part| && (forall i :: 0 <= i < |part| ==> from[i] < |line| && line[from[i]] == part[i])
    && (forall i, j :: 0 <= i < j < |part| ==> from[i] < from[j])
  }

  /**
   * Each argument before the double dash, or before the end, is either used or skipped, in the order of the line, and
   * what is skipped is no option.
   */
  ghost predicate Partition(line: seq<string>, m: Meaning, used: seq<nat>, skipped: seq<nat>)
    requires m.Meaning?
  {
    && Picked(line, m.used, used) && Picked(line, m.skipped, skipped) && AllNonOptions(m.skipped)
    && |m.dashes| + |m.tail| <= |line|
    && (forall k :: 0 <= k < |line| - (|m.dashes| + |m.tail|) ==> (k in used) != (k in skipped))
    && (forall k: nat :: k in used || k in skipped ==> k < |line| - (|m.dashes| + |m.tail|))
  }

  ghost predicate StablyPartitioned(line: seq<string>, m: Meaning)
    requires m.Meaning?
  {
    exists used: seq<nat>, skipped: seq<nat> :: Partition(line, m, used, skipped)
  }

  /** Positions behind c more arguments. */
  ghost function Behind(from: seq<nat>, c: nat): (to: seq<nat>)
    ensures |to| == |from| && (forall i :: 0 <= i < |from| ==> to[i] == from[i] + c)
    ensures forall k: nat :: k in to <==> k >= c && k - c in from
  {
    var to := seq(|from|, i requires 0 <= i < |from| => from[i] + c);
    assert forall k: nat :: k in to <==> k >= c && k - c in from by {
      forall k: nat | k >= c && k - c in from ensures k in to {
        var i :| 0 <= i < |from| && from[i] == k - c;
        assert to[i] == k;
      }
    }
    to
  }

  ghost function FirstPositions(c: nat): (s: seq<nat>)
    ensures |s| == c && (forall i :: 0 <= i < c ==> s[i] == i) && (forall k: nat :: k in s <==> k < c)
  {
    var s: seq<nat> := seq(c, i requires 0 <= i => i);
    assert forall k: nat :: k in s <==> k < c by {
      forall k: nat | k < c ensures k in s {
        assert s[k] == k;
      }
    }
    s
  }

  lemma PickedBehind(prefix: seq<string>, line: seq<string>, part: seq<string>, from: seq<nat>)
    requires Picked(line, part, from)
    ensures Picked(prefix + line, part, Behind(from, |prefix|))
    ensures Picked(prefix + line, prefix + part, FirstPositions(|prefix|) + Behind(from, |prefix|))
  {
  }

  lemma PartitionSkip(arg: string, line: seq<string>, m: Meaning, used: seq<nat>, skipped: seq<nat>)
    requires m.Meaning? && Partition(line, m, used, skipped) && NonOption(arg)
    ensures Partition([arg] + line, After([], [], [arg], m), Behind(used, 1), FirstPositions(1) + Behind(skipped, 1))
  {
    hide Picked, NonOption;
    assert [] + m.used == m.used;
    PickedBehind([arg], line, m.used, used);
    PickedBehind([arg], line, m.skipped, skipped);
  }

  lemma PartitionTake(args: seq<string>, line: seq<string>, report: Report, m: Meaning, used: seq<nat>,
                      skipped: seq<nat>)
    requires m.Meaning? && Partition(line, m, used, skipped)
    ensures Partition(args + line, After([report], args, [], m), FirstPositions(|args|) + Behind(used, |args|),
                      Behind(skipped, |args|))
  {
    hide Picked, NonOption;
    assert [] + m.skipped == m.skipped;
    PickedBehind(args, line, m.used, used);
    PickedBehind(args, line, m.skipped, skipped);
  }

  lemma {:induction false} ReadPartitions(options: Options, line: seq<string>, at: nat)
    returns (used: seq<nat>, skipped: seq<nat>)
    requires Resumable(line, at) && Read(options, line, at).Meaning?
    ensures Partition(line, Read(options, line, at), used, skipped)
    decreases |line|, if line == [] then 0 else |line[0]| - at
  {
    hide Partition, Read, ShortStep, LongStep, NonOption;
    if AtEnd(options, line) {
      used, skipped := [], [];
      EndPartitions(options, line, at);
    } else if NonOption(line[0]) {
      assert [line[0]] + line[1..] == line;
      Skips(options, [line[0]], line[1..]);
      NeverResumed(line, at);
      used, skipped := ReadPartitions(options, line[1..], 0);
      PartitionSkip(line[0], line[1..], Read(options, line[1..], 0), used, skipped);
      used, skipped := Behind(used, 1), FirstPositions(1) + Behind(skipped, 1);
    } else {
      Takes(options, line, at);
      var step := FirstStep(options, line, at);
      var c := step.consumed;
      assert line[..c] + line[c..] == line;
      assert c == 0 ==> line[c..] == line;
      used, skipped := ReadPartitions(options, line[c..], step.next);
      PartitionTake(line[..c], line[c..], step.report, Read(options, line[c..], step.next), used, skipped);
      used, skipped := FirstPositions(c) + Behind(used, c), Behind(skipped, c);
    }
  }

  lemma EndPartitions(options: Options, line: seq<string>, at: nat)
    requires Resumable(line, at) && AtEnd(options, line)
    ensures Read(options, line, at).Meaning? && Partition(line, Read(options, line, at), [], [])
  {
    EndReads(options, line, at);
  }

  /** The scan ends here: nothing left, a double dash, or an argument that stops it. */
  predicate AtEnd(options: Options, line: seq<string>) {
    line == [] || line[0] == "--" || (NonOption(line[0]) && options.Stops())
  }

  /** The meaning of a line at which the scan ends. */
  lemma EndReads(options: Options, line: seq<string>, at: nat)
    requires Resumable(line, at) && AtEnd(options, line)
    ensures at == 0
    ensures Read(options, line, at)
         == if line != [] && line[0] == "--" then Meaning([], [], ["--"], [], line[1..]) else Meaning([], [], [], [],
             line)
  {
  }

  lemma EndConserves(options: Options, line: seq<string>, at: nat)
    requires Resumable(line, at) && AtEnd(options, line)
    ensures Read(options, line, at).Meaning? && Conserved(line, Read(options, line, at))
  {
    EndReads(options, line, at);
    assert line != [] && line[0] == "--" ==> ["--"] + line[1..] == line;
  }

  lemma NeverResumed(line: seq<string>, at: nat)
    requires Resumable(line, at) && line != [] && NonOption(line[0])
    ensures at == 0
  {
  }

  // ----- a call of getopt, on the array as a sequence -----

  datatype CallOutcome = Found(report: Report) | Finished | Error | VerifyFailed

  /**
   * A run under way: the options before `index` are reported, the next `passed` arguments are no options, and what
   * the rest means, from letter `at` of its first argument on, completes the meaning of the whole line.
   */
  ghost predicate UnderWay(options: Options, args: seq<string>, index: nat, passed: nat, at: nat, whole: Meaning,
                           reports: seq<Report>) {
    && index + passed <= |args| && (options.Stops() ==> passed == 0)
    && AllNonOptions(args[index..index + passed]) && Resumable(args[index + passed..], at)
    && whole == After(reports, args[..index], args[index..index + passed], Read(options, args[index + passed..], at))
  }

  lemma UnderWayAtFirst(options: Options, args: seq<string>)
    ensures UnderWay(options, args, 0, 0, 0, Read(options, args, 0), [])
  {
    assert args[0..] == args;
  }

  /** The arguments at s..s + k and the c after them exchanged. */
  ghost function Rearranged(args: seq<string>, s: nat, k: nat, c: nat): (t: seq<string>)
    requires s + k + c <= |args|
  {
    args[..s] + args[s + k..s + k + c] + args[s..s + k] + args[s + k + c..]
  }

  lemma NothingSkipped(args: seq<string>, s: nat, c: nat)
    requires s + c <= |args|
    ensures args == Rearranged(args, s, 0, c)
  {
  }

  lemma NothingConsumed(args: seq<string>, s: nat, k: nat)
    requires s + k <= |args|
    ensures args == Rearranged(args, s, k, 0)
  {
  }

  ghost function Overwritten(args: seq<string>, to: nat, data: seq<string>): (t: seq<string>)
    requires to + |data| <= |args|
    ensures |t| == |args|
  {
    args[..to] + data + args[to + |data|..]
  }

  /** The two copies of shift_argv, with the consumed arguments set aside first. */
  lemma TwoCopies(args: seq<string>, s: nat, k: nat, c: nat)
    requires s + k + c <= |args|
    ensures Overwritten(Overwritten(args, s + c, args[s..s + k]), s, args[s + k..s + k + c]) == Rearranged(args, s, k,
            c)
  {
  }

  lemma RearrangedParts(args: seq<string>, s: nat, k: nat, c: nat)
    requires s + k + c <= |args|
    ensures var t := Rearranged(args, s, k, c);
            && |t| == |args| && t[..s + c] == args[..s] + args[s + k..s + k + c]
            && t[s + c..s + c + k] == args[s..s + k] && t[s + c + k..] == args[s + k + c..]
  {
  }

  lemma PassedIsNoOption(args: seq<string>, s: nat, known: nat, k: nat)
    requires s + known <= |args| && AllNonOptions(args[s..s + known])
    ensures k < known ==> NonOption(args[s + k]) && args[s + k..][0] == args[s + k]
  {
    if k < known {
      assert args[s..s + known][k] == args[s + k];
    }
  }

  lemma BetweenIsNoOption(args: seq<string>, s: nat, known: nat, k: nat)
    requires known < k && s + k <= |args| && AllNonOptions(args[s..s + k])
    ensures AllNonOptions(args[s + known..s + k]) && NonOption(args[s + known..][0])
  {
    hide NonOption;
    var between := args[s + known..s + k];
    assert forall i :: 0 <= i < |between| ==> between[i] == args[s..s + k][known + i];
    assert args[s + known..][0] == between[0];
  }

  lemma SliceParts(args: seq<string>, i: nat, c: nat)
    requires i + c <= |args|
    ensures args[i..][..c] == args[i..i + c] && args[i..][c..] == args[i + c..]
  {
  }

  lemma SlicesMeet(args: seq<string>, s: nat, i: nat, j: nat)
    requires s <= i <= j <= |args|
    ensures args[i..] == args[i..j] + args[j..] && args[s..j] == args[s..i] + args[i..j]
  {
  }

  /** Passing over arguments that are no options. */
  lemma PassedOver(options: Options, args: seq<string>, s: nat, known: nat, k: nat, at: nat, whole: Meaning,
                   reports: seq<Report>)
    requires UnderWay(options, args, s, known, at, whole, reports)
    requires s + k <= |args| && AllNonOptions(args[s..s + k]) && (options.Stops() ==> k == 0)
    requires s + k < |args| ==> IsOption(args[s + k]) || AtEnd(options, args[s + k..])
    ensures UnderWay(options, args, s, k, at, whole, reports)
  {
    if !options.Stops() {
      hide Read, After, NonOption, AllNonOptions;
      PassedIsNoOption(args, s, known, k);
      if known < k {
        PassedMore(options, args, s, known, k, at, whole, reports);
      }
    }
  }

  lemma PassedMore(options: Options, args: seq<string>, s: nat, known: nat, k: nat, at: nat, whole: Meaning,
                   reports: seq<Report>)
    requires UnderWay(options, args, s, known, at, whole, reports) && !options.Stops()
    requires known < k && s + k <= |args| && AllNonOptions(args[s..s + k])
    ensures UnderWay(options, args, s, k, at, whole, reports)
  {
    hide Read, After, NonOption, AllNonOptions;
    var between, rest := args[s + known..s + k], args[s + k..];
    BetweenIsNoOption(args, s, known, k);
    SlicesMeet(args, s, s + known, s + k);
    NeverResumed(args[s + known..], at);
    Skips(options, between, rest);
    AfterAfter(reports, args[..s], args[s..s + known], [], [], between, Read(options, rest, 0));
    assert reports + [] == reports && args[..s] + [] == args[..s];
  }

  /** What one call comes to on a line: arguments that are no options are passed over. */
  function NextOutcome(options: Options, line: seq<string>, at: nat): (outcome: CallOutcome)
    requires Resumable(line, at)
  {
    if AtEnd(options, line) then Finished
    else if NonOption(line[0]) then NextOutcome(options, line[1..], 0)
    else
      Outcome(FirstStep(options, line, at))
  }

  function Outcome(step: Step): (outcome: CallOutcome) {
    match step
    case Failed => Error
    case Crashed => VerifyFailed
    case Taken(report, _, _) => Found(report)
  }

  lemma {:induction false} NextSkips(options: Options, skipped: seq<string>, line: seq<string>)
    requires !options.Stops() && AllNonOptions(skipped)
    ensures NextOutcome(options, skipped + line, 0) == NextOutcome(options, line, 0)
  {
    hide NonOption;
    if skipped == [] {
      assert skipped + line == line;
    } else {
      DashesAreNoArgument(skipped[0]);
      NextSkips(options, skipped[1..], line);
      assert (skipped + line)[1..] == skipped[1..] + line;
    }
  }

  lemma DashesAreNoArgument(arg: string)
    ensures NonOption(arg) ==> arg != "--"
  {
  }

  lemma NextPasses(options: Options, args: seq<string>, s: nat, known: nat, k: nat, at: nat)
    requires s + known <= |args| && AllNonOptions(args[s..s + known]) && Resumable(args[s + known..], at)
    requires s + k <= |args| && AllNonOptions(args[s..s + k]) && (options.Stops() ==> k == known)
    requires s + k < |args| ==> IsOption(args[s + k]) || AtEnd(options, args[s + k..])
    ensures Resumable(args[s + k..], at)
    ensures NextOutcome(options, args[s + known..], at) == NextOutcome(options, args[s + k..], at)
  {
    if !options.Stops() {
      hide NextOutcome, NonOption;
      PassedIsNoOption(args, s, known, k);
      if known < k {
        BetweenIsNoOption(args, s, known, k);
        NeverResumed(args[s + known..], at);
        NextSkips(options, args[s + known..s + k], args[s + k..]);
        assert args[s + known..] == args[s + known..s + k] + args[s + k..];
      }
    }
  }

  /** An option taken: its report and its arguments join what was before. */
  lemma TookOption(options: Options, args: seq<string>, s: nat, k: nat, at: nat, whole: Meaning, reports: seq<Report>)
    requires UnderWay(options, args, s, k, at, whole, reports) && s + k < |args| && IsOption(args[s + k])
    ensures match FirstStep(options, args[s + k..], at)
            case Failed => whole.Wrong?
            case Crashed => whole.Wrong?
            case Taken(report, c, next) =>
              && s + k + c <= |args| && UnderWay(options, Rearranged(args, s, k, c), s + c, k, next, whole,
                                                 reports + [report])
  {
    hide Read, FirstStep, Rearranged;
    var line := args[s + k..];
    Takes(options, line, at);
    var step := FirstStep(options, line, at);
    if step.Taken? {
      var c := step.consumed;
      RearrangedParts(args, s, k, c);
      SliceParts(args, s + k, c);
      AfterAfter(reports, args[..s], args[s..s + k], [step.report], line[..c], [], Read(options, line[c..], step.next));
      assert args[s..s + k] + [] == args[s..s + k];
    }
  }

  /** The end of the options: the array is in its final order. */
  lemma TookEnd(options: Options, args: seq<string>, s: nat, k: nat, c: nat, at: nat, whole: Meaning,
                reports: seq<Report>)
    requires UnderWay(options, args, s, k, at, whole, reports) && AtEnd(options, args[s + k..])
    requires c == if s + k < |args| && args[s + k] == "--" then 1 else 0
    ensures whole.Meaning? && whole.reports == reports && |whole.used| + |whole.dashes| == s + c
    ensures s + k + c <= |args| && Rearranged(args, s, k, c) == Reordered(whole)
  {
    hide Read, AtEnd, NonOption, AllNonOptions, Rearranged, Reordered;
    EndReads(options, args[s + k..], at);
    assert args[s + k..] != [] ==> args[s + k..][0] == args[s + k];
    if c == 1 {
      DashesLast(args, s, k, reports);
    } else {
      NothingLast(args, s, k, reports);
    }
  }

  lemma DashesLast(args: seq<string>, s: nat, k: nat, reports: seq<Report>)
    requires s + k < |args| && args[s + k] == "--"
    ensures var m := After(reports, args[..s], args[s..s + k], Meaning([], [], ["--"], [], args[s + k..][1..]));
            m.reports == reports && |m.used| + |m.dashes| == s + 1 && Reordered(m) == Rearranged(args, s, k, 1)
  {
    assert args[s + k..s + k + 1] == ["--"] && args[s + k..][1..] == args[s + k + 1..];
    assert args[..s] + [] == args[..s] && args[s..s + k] + [] == args[s..s + k];
  }

  lemma NothingLast(args: seq<string>, s: nat, k: nat, reports: seq<Report>)
    requires s + k <= |args|
    ensures var m := After(reports, args[..s], args[s..s + k], Meaning([], [], [], [], args[s + k..]));
            m.reports == reports && |m.used| + |m.dashes| == s && Reordered(m) == Rearranged(args, s, k, 0)
  {
    assert args[s + k..s + k] == [] && args[s..s + k] + [] == args[s..s + k];
    assert args[..s] + [] == args[..s];
  }

  // ----- the parser -----

  class OptionParser {
    var argIndex: nat
    var skippedArguments: nat
    var consumedArgs: nat
    var indexIntoMultioptionArgument: nat
    /** How many arguments from argIndex on are known to be no options. */
    ghost var passed: nat

    ghost predicate Parsing(options: Options, args: array<string>, whole: Meaning, reports: seq<Report>)
      reads this, args
    {
      UnderWay(options, args[..], argIndex, passed, indexIntoMultioptionArgument, whole, reports)
    }

    constructor ()
      ensures argIndex == skippedArguments == consumedArgs == indexIntoMultioptionArgument == passed == 0
    {
      argIndex, skippedArguments, consumedArgs, indexIntoMultioptionArgument, passed := 0, 0, 0, 0, 0;
    }

    /** find_next_option: passes over arguments that are no options. */
    method FindNextOption(options: Options, args: array<string>) returns (found: bool)
      requires argIndex <= args.Length
      modifies this`argIndex, this`skippedArguments
      ensures argIndex == old(argIndex) + skippedArguments <= args.Length
              && AllNonOptions(args[old(argIndex)..argIndex])
      ensures options.Stops() ==> skippedArguments == 0
      ensures found <==> argIndex < args.Length && IsOption(args[argIndex])
      ensures !found ==> AtEnd(options, args[argIndex..])
    {
      skippedArguments := 0;
      while argIndex < args.Length
        invariant argIndex == old(argIndex) + skippedArguments <= args.Length
                  && AllNonOptions(args[old(argIndex)..argIndex])
        invariant options.Stops() ==> skippedArguments == 0
      {
        var arg := args[argIndex];
        if NonOption(arg) {
          if options.Stops() {
            return false;
          }
          assert args[old(argIndex)..argIndex + 1] == args[old(argIndex)..argIndex] + [arg];
          skippedArguments := skippedArguments + 1;
          argIndex := argIndex + 1;
          continue;
        }
        return arg != "--";
      }
      return false;
    }

    /** shift_argv: what was consumed goes before what was skipped. */
    method ShiftArgv(args: array<string>)
      requires skippedArguments <= argIndex && argIndex + consumedArgs <= args.Length && consumedArgs <= 2
      modifies this`argIndex, this`skippedArguments, args
      ensures argIndex == old(argIndex) - old(skippedArguments) && skippedArguments == 0
      ensures args[..] == Rearranged(old(args[..]), argIndex, old(skippedArguments), consumedArgs)
    {
      hide Rearranged, Overwritten;
      var start := argIndex - skippedArguments;
      if consumedArgs == 0 && skippedArguments == 0 {
        NothingSkipped(args[..], argIndex, 0);
        return;
      }
      var all := args[..];
      TwoCopies(all, start, skippedArguments, consumedArgs);
      var buffer := all[argIndex..argIndex + consumedArgs];
      CopyTo(all[start..argIndex], args, start + consumedArgs);
      CopyTo(buffer, args, start);
      argIndex := start;
      skippedArguments := 0;
    }

    /** handle_short_option: one letter of the current argument. */
    method HandleShortOption(options: Options, args: array<string>) returns (outcome: CallOutcome)
      requires argIndex < args.Length && IsOption(args[argIndex]) && !IsLong(args[argIndex])
      requires Resumable(args[argIndex..], indexIntoMultioptionArgument)
      modifies this`consumedArgs, this`indexIntoMultioptionArgument
      ensures Matches(FirstStep(options, args[argIndex..], old(indexIntoMultioptionArgument)), outcome)
    {
      hide LookupShort;
      ghost var line := args[argIndex..];
      assert line[0] == args[argIndex] && (|line| > 1 ==> line[1] == args[argIndex + 1]);
      var arg := args[argIndex];
      if indexIntoMultioptionArgument == 0 {
        indexIntoMultioptionArgument := 1;
      }
      var letter := arg[indexIntoMultioptionArgument];
      indexIntoMultioptionArgument := indexIntoMultioptionArgument + 1;
      var lookup := LookupShort(options.shortOptions, letter);
      if lookup.Ambiguous? {
        return VerifyFailed;
      }
      if lookup.Unknown? {
        return Error;
      }
      var value: Option<string>;
      if indexIntoMultioptionArgument < |arg| {
        if lookup.requirement == NoArgument {
          value := None;
          consumedArgs := 0;
        } else {
          value := Some(arg[indexIntoMultioptionArgument..]);
          indexIntoMultioptionArgument := 0;
          consumedArgs := 1;
        }
      } else {
        indexIntoMultioptionArgument := 0;
        if lookup.requirement != HasRequiredArgument {
          value := Some("");
          consumedArgs := 1;
        } else if argIndex + 1 < args.Length {
          value := Some(args[argIndex + 1]);
          consumedArgs := 2;
        } else {
          return Error;
        }
      }
      return Found(Report(Short(letter), value));
    }

    /** handle_long_option */
    method HandleLongOption(options: Options, args: array<string>) returns (outcome: CallOutcome)
      requires argIndex < args.Length && IsOption(args[argIndex]) && IsLong(args[argIndex])
               && indexIntoMultioptionArgument == 0
      modifies this`consumedArgs
      ensures Matches(FirstStep(options, args[argIndex..], 0), outcome)
    {
      ghost var line := args[argIndex..];
      assert line[0] == args[argIndex] && (|line| > 1 ==> line[1] == args[argIndex + 1]);
      assert FirstStep(options, line, 0) == LongStep(options, line[0], Following(line));
      var found, value := LookupLong(options.longOptions, args[argIndex][2..]);
      if found.None? {
        return Error;
      }
      match options.longOptions[found.value].requirement {
        case NoArgument =>
          if value.Some? {
            return Error;
          }
          consumedArgs := 1;
        case HasOptionalArgument =>
          consumedArgs := 1;
        case HasRequiredArgument =>
          if value.Some? {
            consumedArgs := 1;
          } else if argIndex + 1 < args.Length {
            value := Some(args[argIndex + 1]);
            consumedArgs := 2;
          } else {
            return Error;
          }
      }
      return Found(Report(Long(found.value), value));
    }

    /** The fields and the outcome are those of the step. */
    ghost predicate Matches(step: Step, outcome: CallOutcome)
      reads this
    {
      && outcome == Outcome(step)
      && (step.Taken? ==> consumedArgs == step.consumed && indexIntoMultioptionArgument == step.next)
    }

    /** getopt: the next option with its value, the end of the options, or an error. */
    method GetOpt(options: Options, args: array<string>, ghost whole: Meaning,
                  ghost reports: seq<Report>) returns (outcome: CallOutcome)
      requires Parsing(options, args, whole, reports)
      modifies this, args
      ensures outcome == NextOutcome(options, old(args[argIndex + passed..]), old(indexIntoMultioptionArgument))
      ensures outcome.Found? ==> Parsing(options, args, whole, reports + [outcome.report])
      ensures outcome.Found? ==>
                || argIndex > old(argIndex)
                || (argIndex == old(argIndex) && old(indexIntoMultioptionArgument) < indexIntoMultioptionArgument
                    && args[..] == old(args[..]))
      ensures outcome.Error? || outcome.VerifyFailed? ==> whole.Wrong?
      ensures outcome.Found? || outcome.Finished? ==> argIndex == old(argIndex) + consumedArgs
      ensures outcome.Finished? ==>
                && whole.Meaning? && whole.reports == reports
                && args[..] == Reordered(whole) && argIndex == |whole.used| + |whole.dashes|
    {
      hide Read, FirstStep, AllNonOptions, NonOption, IsLong, Reordered, AtEnd, Rearranged, UnderWay, NextOutcome;
      ghost var start, pre, at := argIndex, args[..], indexIntoMultioptionArgument;
      UnderWayParts(options, pre, start, passed, at, whole, reports);
      var found := FindNextOption(options, args);
      ghost var k := skippedArguments;
      assert args[argIndex..] == pre[start + k..];
      NextPasses(options, pre, start, passed, k, at);
      NextDecides(options, pre[start + k..], at);
      PassedOver(options, pre, start, passed, k, at, whole, reports);
      UnderWayParts(options, pre, start, k, at, whole, reports);
      if !found {
        outcome := Finished;
        if argIndex < args.Length && args[argIndex] == "--" {
          consumedArgs := 1;
        } else {
          consumedArgs := 0;
        }
        TookEnd(options, pre, start, k, consumedArgs, at, whole, reports);
      } else {
        TookOption(options, pre, start, k, at, whole, reports);
        outcome := HandleOption(options, args);
        if !outcome.Found? {
          return;
        }
      }
      passed := k;
      NothingConsumed(pre, start, k);
      MoveOn(options, args);
    }

    /** The end of a call that is no error: the arguments are reordered if they may be, and the index moves on. */
    method MoveOn(options: Options, args: array<string>)
      requires skippedArguments <= argIndex && argIndex + consumedArgs <= args.Length && consumedArgs <= 2
      requires options.Stops() ==> skippedArguments == 0
      modifies this`argIndex, this`skippedArguments, args
      ensures argIndex == old(argIndex) - old(skippedArguments) + consumedArgs
      ensures args[..] == Rearranged(old(args[..]), old(argIndex) - old(skippedArguments), old(skippedArguments),
                                     consumedArgs)
    {
      hide Rearranged;
      if !options.Stops() {
        ShiftArgv(args);
      } else {
        NothingSkipped(args[..], argIndex, consumedArgs);
      }
      argIndex := argIndex + consumedArgs;
    }

    /** The option at the current argument, long or short. */
    method HandleOption(options: Options, args: array<string>) returns (outcome: CallOutcome)
      requires argIndex < args.Length && IsOption(args[argIndex])
               && Resumable(args[argIndex..], indexIntoMultioptionArgument)
      modifies this`consumedArgs, this`indexIntoMultioptionArgument
      ensures Matches(FirstStep(options, args[argIndex..], old(indexIntoMultioptionArgument)), outcome)
    {
      if IsLong(args[argIndex]) {
        outcome := HandleLongOption(options, args);
      } else {
        outcome := HandleShortOption(options, args);
      }
    }
  }

  lemma UnderWayParts(options: Options, args: seq<string>, index: nat, passed: nat, at: nat, whole: Meaning,
                      reports: seq<Report>)
    requires UnderWay(options, args, index, passed, at, whole, reports)
    ensures index + passed <= |args| && Resumable(args[index + passed..], at)
    ensures AllNonOptions(args[index..index + passed]) && (options.Stops() ==> passed == 0)
  {
  }

  lemma NextDecides(options: Options, line: seq<string>, at: nat)
    requires Resumable(line, at) && (AtEnd(options, line) || IsOption(line[0]))
    ensures AtEnd(options, line) ==> NextOutcome(options, line, at) == Finished
    ensures line != [] && IsOption(line[0]) ==>
              NextOutcome(options, line, at) == Outcome(FirstStep(options, line, at))
  {
  }

  /** copy_to: a span copied to a position of the array, as it was before. */
  method CopyTo(data: seq<string>, args: array<string>, to: nat)
    requires to + |data| <= args.Length
    modifies args
    ensures args[..] == Overwritten(old(args[..]), to, data)
  {
    forall i | to <= i < to + |data| {
      args[i] := data[i - to];
    }
  }

  /** All the calls of one run, up to the end of the options or an error. */
  method Run(options: Options, args: array<string>) returns (reports: Option<seq<Report>>, index: nat)
    modifies args
    ensures var whole := Read(options, old(args[..]), 0);
            match whole
            case Wrong => reports.None?
            case Meaning(expected, used, dashes, _, _) =>
              && reports == Some(expected) && args[..] == Reordered(whole) && index == |used| + |dashes|
              && StablyPartitioned(old(args[..]), whole)
  {
    hide Read, Reordered, UnderWay, Partition, NextOutcome;
    var parser := new OptionParser();
    var found: seq<Report> := [];
    ghost var whole := Read(options, args[..], 0);
    UnderWayAtFirst(options, args[..]);
    if whole.Meaning? {
      ghost var used, skipped := ReadPartitions(options, args[..], 0);
    }
    while true
      invariant parser.Parsing(options, args, whole, found)
      decreases args.Length - parser.argIndex, Longest(args[..]) - parser.indexIntoMultioptionArgument
    {
      ClusterInside(options, args[..], parser.argIndex, parser.passed, parser.indexIntoMultioptionArgument, whole,
                    found);
      var outcome := parser.GetOpt(options, args, whole, found);
      match outcome
      case Finished => return Some(found), parser.argIndex;
      case Error => return None, parser.argIndex;
      case VerifyFailed => return None, parser.argIndex;
      case Found(report) => found := found + [report];
    }
  }

  /** The length of the longest argument bounds every cluster of letters. */
  ghost function Longest(args: seq<string>): (n: nat)
    ensures forall i :: 0 <= i < |args| ==> |args[i]| <= n
  {
    if args == [] then 0 else Max(|args[0]|, Longest(args[1..]))
  }

  lemma ClusterInside(options: Options, args: seq<string>, index: nat, passed: nat, at: nat, whole: Meaning,
                      reports: seq<Report>)
    requires UnderWay(options, args, index, passed, at, whole, reports)
    ensures at <= Longest(args) && index <= |args|
  {
    assert at > 0 ==> args[index + passed..][0] == args[index + passed];
  }
}
