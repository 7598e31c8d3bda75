/** Argument lines written from options and values, which getopt reads back as what they were written from. */
module OptionLines {
  import opened Parser = OptionParser
  import opened Prelude

  // ----- clusters of letters -----

  /** What the letter at position i of the first argument comes to, by its requirement and by what is after it. */
  lemma LetterStep(options: Options, line: seq<string>, i: nat, requirement: Requirement)
    requires line != [] && IsOption(line[0]) && !IsLong(line[0]) && 1 <= i < |line[0]|
    requires LookupShort(options.shortOptions, line[0][i]) == Known(requirement)
    ensures var step, id := FirstStep(options, line, i), Short(line[0][i]);
            if i + 1 < |line[0]| then
              if requirement == NoArgument then step == Taken(Report(id, None), 0, i + 1)
              else step == Taken(Report(id, Some(line[0][i + 1..])), 1, 0)
            else if requirement != HasRequiredArgument then step == Taken(Report(id, Some("")), 1, 0)
            else if |line| > 1 then step == Taken(Report(id, Some(line[1])), 2, 0)
            else step == Failed
  {
    hide LookupShort;
  }

  /** Letters that take no argument, each reported without a value. */
  function FlagReports(flags: string): (reports: seq<Report>)
    ensures |reports| == |flags| && (forall i :: 0 <= i < |flags| ==> reports[i] == Report(Short(flags[i]), None))
  {
    seq(|flags|, i requires 0 <= i < |flags| => Report(Short(flags[i]), None))
  }

  ghost predicate AreFlags(options: Options, flags: string) {
    forall i :: 0 <= i < |flags| ==> LookupShort(options.shortOptions, flags[i]) == Known(NoArgument)
  }

  lemma {:induction false} FlagsRead(options: Options, line: seq<string>, i: nat, flags: string)
    requires line != [] && IsOption(line[0]) && !IsLong(line[0]) && 1 <= i
    requires i + |flags| < |line[0]| && line[0][i..i + |flags|] == flags && AreFlags(options, flags)
    ensures Read(options, line, i) == After(FlagReports(flags), [], [], Read(options, line, i + |flags|))
    decreases |flags|
  {
    hide Read, LookupShort, FirstStep, IsOption, IsLong;
    if flags == [] {
      AfterNothing(Read(options, line, i));
      assert FlagReports(flags) == [];
    } else {
      var rest := flags[1..];
      assert line[0][i] == line[0][i..i + |flags|][0] == flags[0];
      assert line[0][i + 1..i + 1 + |rest|] == line[0][i..i + |flags|][1..];
      LetterStep(options, line, i, NoArgument);
      Takes(options, line, i);
      assert line[..0] == [] && line[0..] == line;
      FlagsRead(options, line, i + 1, rest);
      AfterAfter([Report(Short(flags[0]), None)], [], [], FlagReports(rest), [], [],
                 Read(options, line, i + |flags|));
      assert FlagReports(flags) == [Report(Short(flags[0]), None)] + FlagReports(rest);
    }
  }

  /** A dash and letters, then perhaps a value, and no second dash. */
  function Cluster(flags: string, letter: char, value: string): (arg: string)
    ensures |arg| == |flags| + 2 + |value| && arg[1..1 + |flags|] == flags && arg[1 + |flags|] == letter
    ensures arg[2 + |flags|..] == value
  {
    "-" + flags + [letter] + value
  }

  lemma ClusterIsShort(flags: string, letter: char, value: string)
    requires (flags + [letter])[0] != '-'
    ensures IsOption(Cluster(flags, letter, value)) && !IsLong(Cluster(flags, letter, value))
  {
    var arg := Cluster(flags, letter, value);
    assert arg[1] == (flags + [letter])[0];
  }

  lemma FromFirstLetter(options: Options, line: seq<string>)
    requires line != [] && IsOption(line[0]) && !IsLong(line[0])
    ensures Resumable(line, 1) && Read(options, line, 0) == Read(options, line, 1)
  {
    hide ShortStep;
  }

  /** The flags of a cluster are read, and then its last letter decides. */
  lemma ClusterReads(options: Options, flags: string, letter: char, value: string, more: seq<string>)
    requires (flags + [letter])[0] != '-' && AreFlags(options, flags)
    ensures var line := [Cluster(flags, letter, value)] + more;
            IsOption(line[0]) && !IsLong(line[0]) && Resumable(line, 1 + |flags|)
    ensures var line := [Cluster(flags, letter, value)] + more;
            var step := FirstStep(options, line, 1 + |flags|);
            if step.Taken? then
              && Resumable(line[step.consumed..], step.next)
              && Read(options, line, 0)
                 == After(FlagReports(flags) + [step.report], line[..step.consumed], [],
                          Read(options, line[step.consumed..], step.next))
            else Read(options, line, 0) == Wrong
  {
    var line := [Cluster(flags, letter, value)] + more;
    ClusterIsShort(flags, letter, value);
    hide Read, LookupShort, FirstStep, Cluster, IsOption, IsLong, FlagReports;
    FromFirstLetter(options, line);
    FlagsRead(options, line, 1, flags);
    Takes(options, line, 1 + |flags|);
    var step := FirstStep(options, line, 1 + |flags|);
    if step.Taken? {
      AfterAfter(FlagReports(flags), [], [], [step.report], line[..step.consumed], [],
                 Read(options, line[step.consumed..], step.next));
      assert [] + line[..step.consumed] == line[..step.consumed];
    }
  }

  /** A cluster whose last letter has nothing after it: the empty value. */
  lemma BareReads(options: Options, flags: string, letter: char, rest: seq<string>)
    requires (flags + [letter])[0] != '-' && AreFlags(options, flags)
    requires LookupShort(options.shortOptions, letter) == Known(NoArgument)
             || LookupShort(options.shortOptions, letter) == Known(HasOptionalArgument)
    ensures Read(options, ["-" + flags + [letter]] + rest, 0)
         == After(FlagReports(flags) + [Report(Short(letter), Some(""))], ["-" + flags + [letter]], [],
                  Read(options, rest, 0))
  {
    hide Read, LookupShort, FirstStep, IsOption, IsLong, After;
    var line := [Cluster(flags, letter, "")] + rest;
    ClusterReads(options, flags, letter, "", rest);
    LetterStep(options, line, 1 + |flags|, LookupShort(options.shortOptions, letter).requirement);
    assert line[..1] == [Cluster(flags, letter, "")] && line[1..] == rest;
    assert "-" + flags + [letter] + "" == "-" + flags + [letter];
  }

  /** A last letter that takes an argument, with more characters after it: they are its value. */
  lemma AttachedReads(options: Options, flags: string, letter: char, value: string, rest: seq<string>)
    requires (flags + [letter])[0] != '-' && AreFlags(options, flags) && value != ""
    requires LookupShort(options.shortOptions, letter) == Known(HasOptionalArgument)
             || LookupShort(options.shortOptions, letter) == Known(HasRequiredArgument)
    ensures Read(options, ["-" + flags + [letter] + value] + rest, 0)
         == After(FlagReports(flags) + [Report(Short(letter), Some(value))], ["-" + flags + [letter] + value], [],
                  Read(options, rest, 0))
  {
    hide Read, LookupShort, FirstStep, IsOption, IsLong, After;
    var line := [Cluster(flags, letter, value)] + rest;
    ClusterReads(options, flags, letter, value, rest);
    LetterStep(options, line, 1 + |flags|, LookupShort(options.shortOptions, letter).requirement);
    assert line[..1] == [Cluster(flags, letter, value)] && line[1..] == rest;
  }

  /** A last letter that needs an argument, with nothing after it: the next argument is its value. */
  lemma SeparateReads(options: Options, flags: string, letter: char, value: string, rest: seq<string>)
    requires (flags + [letter])[0] != '-' && AreFlags(options, flags)
    requires LookupShort(options.shortOptions, letter) == Known(HasRequiredArgument)
    ensures Read(options, ["-" + flags + [letter], value] + rest, 0)
         == After(FlagReports(flags) + [Report(Short(letter), Some(value))], ["-" + flags + [letter], value], [],
                  Read(options, rest, 0))
  {
    hide Read, LookupShort, FirstStep, IsOption, IsLong, After;
    var line := [Cluster(flags, letter, "")] + ([value] + rest);
    ClusterReads(options, flags, letter, "", [value] + rest);
    LetterStep(options, line, 1 + |flags|, HasRequiredArgument);
    assert "-" + flags + [letter] + "" == "-" + flags + [letter];
    assert line == ["-" + flags + [letter], value] + rest;
    assert line[..2] == ["-" + flags + [letter], value] && line[2..] == rest;
  }

  /** A letter that is not listed is an error, one that is listed twice fails the VERIFY; the run ends there. */
  lemma UnlistedFails(options: Options, flags: string, letter: char, value: string, rest: seq<string>)
    requires (flags + [letter])[0] != '-' && AreFlags(options, flags)
    requires !LookupShort(options.shortOptions, letter).Known?
    ensures var line := ["-" + flags + [letter] + value] + rest;
            && Read(options, line, 0) == Wrong && Resumable(line, 1 + |flags|)
            && NextOutcome(options, line, 1 + |flags|)
               == if LookupShort(options.shortOptions, letter).Unknown? then Error else VerifyFailed
  {
    ClusterReads(options, flags, letter, value, rest);
    hide Read, LookupShort, IsOption, IsLong;
    var line := [Cluster(flags, letter, value)] + rest;
    ClusterIsShort(flags, letter, value);
    NextDecides(options, line, 1 + |flags|);
  }

  /** A last letter that needs an argument, at the end of the line, is an error. */
  lemma MissingFails(options: Options, flags: string, letter: char)
    requires (flags + [letter])[0] != '-' && AreFlags(options, flags)
    requires LookupShort(options.shortOptions, letter) == Known(HasRequiredArgument)
    ensures var line := ["-" + flags + [letter]];
            && Read(options, line, 0) == Wrong && Resumable(line, 1 + |flags|)
            && NextOutcome(options, line, 1 + |flags|) == Error
  {
    hide Read, LookupShort, IsOption, IsLong, FirstStep, NextOutcome, Cluster;
    var line := ["-" + flags + [letter]];
    assert line == [Cluster(flags, letter, "")] + [] by {
      LoneCluster(flags, letter);
    }
    ClusterReads(options, flags, letter, "", []);
    LetterStep(options, line, 1 + |flags|, HasRequiredArgument);
    NextDecides(options, line, 1 + |flags|);
  }

  lemma LoneCluster(flags: string, letter: char)
    ensures "-" + flags + [letter] == Cluster(flags, letter, "")
  {
  }

  // ----- long options -----

  /** No name up to the index holds an equals sign, and none before it is the same. */
  ghost predicate Distinguished(longOptions: seq<LongSpec>, index: nat)
  {
    && index < |longOptions| && (forall j :: 0 <= j <= index ==> '=' !in longOptions[j].name)
    && (forall j :: 0 <= j < index ==> longOptions[j].name != longOptions[index].name)
  }

  /** One name fits another, alone or with a value, exactly if they are the same. */
  lemma FitsExactly(name: string, other: string, value: string)
    requires '=' !in name && '=' !in other
    ensures Fits(name, other) <==> name == other
    ensures Fits(name, other + "=" + value) <==> name == other
  {
    var arg := other + "=" + value;
    if StartsWith(arg, name) && |name| > |other| {
      PrefixLetter(arg, name, |other|);
    } else if StartsWith(arg, name) && |name| < |other| {
      PrefixLetter(arg, other, |name|);
    }
    if StartsWith(other, name) && |name| < |other| {
      PrefixLetter(other, other, |name|);
    }
    assert StartsWith(arg, name) && |name| == |other| ==> name == arg[..|other|] == other;
  }

  lemma PrefixLetter(arg: string, prefix: string, i: nat)
    requires StartsWith(arg, prefix) && i < |prefix|
    ensures arg[i] == prefix[i] && prefix[i] in prefix
  {
    assert arg[..|prefix|][i] == arg[i];
  }

  lemma {:induction false} FirstLongIs(longOptions: seq<LongSpec>, arg: string, from: nat, index: nat)
    requires from <= index < |longOptions| && Fits(longOptions[index].name, arg)
    requires forall j :: from <= j < index ==> !Fits(longOptions[j].name, arg)
    ensures FirstLong(longOptions, arg, from) == Some(index)
    decreases index - from
  {
    hide Fits;
    if from < index {
      FirstLongIs(longOptions, arg, from + 1, index);
    }
  }

  lemma {:induction false} NoLong(longOptions: seq<LongSpec>, arg: string, from: nat)
    requires from <= |longOptions| && (forall j :: from <= j < |longOptions| ==> !Fits(longOptions[j].name, arg))
    ensures FirstLong(longOptions, arg, from) == None
    decreases |longOptions| - from
  {
    hide Fits;
    if from < |longOptions| {
      NoLong(longOptions, arg, from + 1);
    }
  }

  /** A name alone is found without a value, and a name with an equals sign after it with what follows. */
  lemma LongFound(longOptions: seq<LongSpec>, index: nat, value: string)
    requires Distinguished(longOptions, index)
    ensures var name := longOptions[index].name;
            && FirstLong(longOptions, name, 0) == FirstLong(longOptions, name + "=" + value, 0) == Some(index)
            && ValueAfter(name, name) == None && ValueAfter(name, name + "=" + value) == Some(value)
  {
    hide Fits;
    var name := longOptions[index].name;
    forall j | 0 <= j <= index ensures Fits(longOptions[j].name, name) <==> j == index
                               ensures Fits(longOptions[j].name, name + "=" + value) <==> j == index {
      FitsExactly(longOptions[j].name, name, value);
    }
    FirstLongIs(longOptions, name, 0, index);
    FirstLongIs(longOptions, name + "=" + value, 0, index);
    assert (name + "=" + value)[|name| + 1..] == value;
  }

  /** What a long option comes to, by its requirement and by whether it has a value. */
  lemma LongStepCases(options: Options, text: string, more: seq<string>)
    requires text != ""
    ensures var line := ["--" + text] + more;
            IsOption(line[0]) && IsLong(line[0]) && Resumable(line, 0)
    ensures var step, found := FirstStep(options, ["--" + text] + more, 0), FirstLong(options.longOptions, text, 0);
            if found.None? then step == Failed
            else
              var option, id := options.longOptions[found.value], Long(found.value);
              var value := ValueAfter(option.name, text);
              if value.Some? then
                step == if option.requirement == NoArgument then Failed else Taken(Report(id, value), 1, 0)
              else if option.requirement != HasRequiredArgument then step == Taken(Report(id, None), 1, 0)
              else if more != [] then step == Taken(Report(id, Some(more[0])), 2, 0)
              else step == Failed
  {
    hide FirstLong, ValueAfter;
    var arg := "--" + text;
    assert arg[..2] == "--" && arg[2..] == text && arg[0] == '-';
  }

  /** A long option alone: no value. */
  lemma LongAloneReads(options: Options, index: nat, rest: seq<string>)
    requires Distinguished(options.longOptions, index) && options.longOptions[index].name != ""
    requires options.longOptions[index].requirement != HasRequiredArgument
    ensures var arg := "--" + options.longOptions[index].name;
            Read(options, [arg] + rest, 0) == After([Report(Long(index), None)], [arg], [], Read(options, rest, 0))
  {
    hide Read, FirstStep, IsOption, IsLong, After, FirstLong, ValueAfter, Fits;
    var name := options.longOptions[index].name;
    LongFound(options.longOptions, index, "");
    LongStepCases(options, name, rest);
    var line := ["--" + name] + rest;
    Takes(options, line, 0);
    assert line[..1] == ["--" + name] && line[1..] == rest;
  }

  /** A long option that takes an argument, with an equals sign: what is after it is the value, empty or not. */
  lemma LongWithReads(options: Options, index: nat, value: string, rest: seq<string>)
    requires Distinguished(options.longOptions, index) && options.longOptions[index].requirement != NoArgument
    ensures var arg := "--" + (options.longOptions[index].name + "=" + value);
            var reports := [Report(Long(index), Some(value))];
            Read(options, [arg] + rest, 0) == After(reports, [arg], [], Read(options, rest, 0))
  {
    hide Read, FirstStep, IsOption, IsLong, After, FirstLong, ValueAfter, Fits;
    var text := options.longOptions[index].name + "=" + value;
    LongFound(options.longOptions, index, value);
    LongStepCases(options, text, rest);
    var line := ["--" + text] + rest;
    Takes(options, line, 0);
    assert line[..1] == ["--" + text] && line[1..] == rest;
  }

  /** A long option that needs an argument, without an equals sign: the next argument is its value. */
  lemma LongThenReads(options: Options, index: nat, value: string, rest: seq<string>)
    requires Distinguished(options.longOptions, index) && options.longOptions[index].name != ""
    requires options.longOptions[index].requirement == HasRequiredArgument
    ensures var arg := "--" + options.longOptions[index].name;
            var reports := [Report(Long(index), Some(value))];
            Read(options, [arg, value] + rest, 0) == After(reports, [arg, value], [], Read(options, rest, 0))
  {
    hide Read, FirstStep, IsOption, IsLong, After, FirstLong, ValueAfter, Fits;
    var name := options.longOptions[index].name;
    LongFound(options.longOptions, index, "");
    LongStepCases(options, name, [value] + rest);
    var line := ["--" + name] + ([value] + rest);
    assert line == ["--" + name, value] + rest;
    Takes(options, line, 0);
    assert line[..2] == ["--" + name, value] && line[2..] == rest;
  }

  /** A long option that is in no table is an error, alone or with a value. */
  lemma UnknownLongFails(options: Options, name: string, value: Option<string>, rest: seq<string>)
    requires '=' !in name && (name != "" || value.Some?)
    requires forall j :: 0 <= j < |options.longOptions| ==>
               '=' !in options.longOptions[j].name && options.longOptions[j].name != name
    ensures var line := ["--" + if value.Some? then name + "=" + value.value else name] + rest;
            && Resumable(line, 0) && Read(options, line, 0) == Wrong && NextOutcome(options, line, 0) == Error
  {
    hide Read, FirstStep, IsOption, IsLong, FirstLong, ValueAfter, Fits, NextOutcome;
    var text := if value.Some? then name + "=" + value.value else name;
    forall j | 0 <= j < |options.longOptions| ensures !Fits(options.longOptions[j].name, text) {
      FitsExactly(options.longOptions[j].name, name, if value.Some? then value.value else "");
    }
    NoLong(options.longOptions, text, 0);
    LongStepCases(options, text, rest);
    Takes(options, ["--" + text] + rest, 0);
    NextDecides(options, ["--" + text] + rest, 0);
  }

  /** A value for a long option that takes none is an error. */
  lemma UnwantedValueFails(options: Options, index: nat, value: string, rest: seq<string>)
    requires Distinguished(options.longOptions, index) && options.longOptions[index].requirement == NoArgument
    ensures var line := ["--" + (options.longOptions[index].name + "=" + value)] + rest;
            && Resumable(line, 0) && Read(options, line, 0) == Wrong && NextOutcome(options, line, 0) == Error
  {
    hide Read, FirstStep, IsOption, IsLong, FirstLong, ValueAfter, Fits, NextOutcome;
    var text := options.longOptions[index].name + "=" + value;
    LongFound(options.longOptions, index, value);
    LongStepCases(options, text, rest);
    Takes(options, ["--" + text] + rest, 0);
    NextDecides(options, ["--" + text] + rest, 0);
  }

  /** A long option that needs an argument, without one at the end of the line, is an error. */
  lemma MissingLongFails(options: Options, index: nat)
    requires Distinguished(options.longOptions, index) && options.longOptions[index].name != ""
    requires options.longOptions[index].requirement == HasRequiredArgument
    ensures var line := ["--" + options.longOptions[index].name];
            && Resumable(line, 0) && Read(options, line, 0) == Wrong && NextOutcome(options, line, 0) == Error
  {
    hide Read, FirstStep, IsOption, IsLong, FirstLong, ValueAfter, Fits, NextOutcome;
    var name := options.longOptions[index].name;
    LongFound(options.longOptions, index, "");
    LongStepCases(options, name, []);
    var line := ["--" + name];
    assert line == line + [];
    Takes(options, line, 0);
    NextDecides(options, line, 0);
  }

  // ----- whole lines -----

  /** How a cluster ends: with nothing, with a value in the same argument, or with one in the next. */
  datatype Ending = Bare | Attached(value: string) | Separate(value: string)

  /** What is written on a line: a cluster of letters, a long option in one of three ways, or no option at all. */
  datatype Written =
    | Letters(flags: string, letter: char, ending: Ending)
    | LongAlone(index: nat)
    | LongWith(index: nat, value: string)
    | LongThen(index: nat, value: string)
    | Plain(arg: string)

  /** The letters are listed as what they are used for, the names are in the table, and the values are allowed. */
  ghost predicate Proper(options: Options, x: Written) {
    match x
    case Letters(flags, letter, ending) =>
      var lookup := LookupShort(options.shortOptions, letter);
      && (flags + [letter])[0] != '-' && AreFlags(options, flags) && lookup.Known?
      && (match ending
          case Bare => lookup.requirement != HasRequiredArgument
          case Attached(value) => lookup.requirement != NoArgument && value != ""
          case Separate(value) => lookup.requirement == HasRequiredArgument)
    case LongAlone(index) =>
      && Distinguished(options.longOptions, index) && options.longOptions[index].name != ""
      && options.longOptions[index].requirement != HasRequiredArgument
    case LongWith(index, value) =>
      Distinguished(options.longOptions, index) && options.longOptions[index].requirement != NoArgument
    case LongThen(index, value) =>
      && Distinguished(options.longOptions, index) && options.longOptions[index].name != ""
      && options.longOptions[index].requirement == HasRequiredArgument
    case Plain(arg) => !options.Stops() && (arg == "" || arg[0] != '-' || arg == "-")
  }

  /** The arguments that are written. */
  function Words(options: Options, x: Written): (words: seq<string>)
    requires Proper(options, x)
  {
    match x
    case Letters(flags, letter, Bare) => ["-" + flags + [letter]]
    case Letters(flags, letter, Attached(value)) => ["-" + flags + [letter] + value]
    case Letters(flags, letter, Separate(value)) => ["-" + flags + [letter], value]
    case LongAlone(index) => ["--" + options.longOptions[index].name]
    case LongWith(index, value) => ["--" + (options.longOptions[index].name + "=" + value)]
    case LongThen(index, value) => ["--" + options.longOptions[index].name, value]
    case Plain(arg) => [arg]
  }

  /** What is to be reported. */
  function Reports(x: Written): (reports: seq<Report>) {
    match x
    case Letters(flags, letter, Bare) => FlagReports(flags) + [Report(Short(letter), Some(""))]
    case Letters(flags, letter, Attached(value)) => FlagReports(flags) + [Report(Short(letter), Some(value))]
    case Letters(flags, letter, Separate(value)) => FlagReports(flags) + [Report(Short(letter), Some(value))]
    case LongAlone(index) => [Report(Long(index), None)]
    case LongWith(index, value) => [Report(Long(index), Some(value))]
    case LongThen(index, value) => [Report(Long(index), Some(value))]
    case Plain(_) => []
  }

  ghost predicate AllProper(options: Options, xs: seq<Written>) {
    forall i :: 0 <= i < |xs| ==> Proper(options, xs[i])
  }

  function Line(options: Options, xs: seq<Written>): (line: seq<string>)
    requires AllProper(options, xs)
  {
    if xs == [] then [] else Words(options, xs[0]) + Line(options, xs[1..])
  }

  function AllReports(xs: seq<Written>): (reports: seq<Report>) {
    if xs == [] then [] else Reports(xs[0]) + AllReports(xs[1..])
  }

  /** The arguments of the options, or only the others. */
  function Arguments(options: Options, xs: seq<Written>, plain: bool): (line: seq<string>)
    requires AllProper(options, xs)
  {
    if xs == [] then []
    else (if xs[0].Plain? == plain then Words(options, xs[0]) else []) + Arguments(options, xs[1..], plain)
  }

  lemma ReadsOne(options: Options, x: Written, rest: seq<string>)
    requires Proper(options, x)
    ensures Read(options, Words(options, x) + rest, 0)
         == After(Reports(x), if x.Plain? then [] else Words(options, x), if x.Plain? then Words(options, x) else [],
                  Read(options, rest, 0))
  {
    hide Read, LookupShort, After, Distinguished, FlagReports, AreFlags;
    match x
    case Letters(flags, letter, Bare) => BareReads(options, flags, letter, rest);
    case Letters(flags, letter, Attached(value)) => AttachedReads(options, flags, letter, value, rest);
    case Letters(flags, letter, Separate(value)) => SeparateReads(options, flags, letter, value, rest);
    case LongAlone(index) => LongAloneReads(options, index, rest);
    case LongWith(index, value) => LongWithReads(options, index, value, rest);
    case LongThen(index, value) => LongThenReads(options, index, value, rest);
    case Plain(arg) => SkipsOne(options, arg, rest);
  }

  /** Reading a line that was written gives back what it was written from, and goes on with the rest. */
  lemma {:induction false} ReadsBack(options: Options, xs: seq<Written>, rest: seq<string>)
    requires AllProper(options, xs)
    ensures Read(options, Line(options, xs) + rest, 0)
         == After(AllReports(xs), Arguments(options, xs, false), Arguments(options, xs, true),
                  Read(options, rest, 0))
  {
    hide Read, After, Proper, Words, Reports;
    if xs == [] {
      assert Line(options, xs) + rest == rest;
      AfterNothing(Read(options, rest, 0));
    } else {
      var x, more := xs[0], xs[1..];
      var line := Line(options, more) + rest;
      ReadsBack(options, more, rest);
      ReadsOne(options, x, line);
      AfterAfter(Reports(x), if x.Plain? then [] else Words(options, x), if x.Plain? then Words(options, x) else [],
                 AllReports(more), Arguments(options, more, false), Arguments(options, more, true),
                 Read(options, rest, 0));
      assert Line(options, xs) + rest == Words(options, x) + line;
    }
  }

  /** The arguments that end the options: a double dash, nothing, or what stops the scan. */
  lemma EndReadsAs(options: Options, dashes: bool, tail: seq<string>)
    requires !dashes ==> tail == [] || (options.Stops() && (tail[0] == "" || tail[0][0] != '-' || tail[0] == "-"))
    ensures var end := if dashes then ["--"] else [];
            Read(options, end + tail, 0) == Meaning([], [], end, [], tail)
  {
    var line := (if dashes then ["--"] else []) + tail;
    EndReads(options, line, 0);
    assert dashes ==> line[1..] == tail;
    assert !dashes ==> line == tail;
  }

  /** The meaning of a whole line that was written. */
  lemma LineMeans(options: Options, xs: seq<Written>, dashes: bool, tail: seq<string>)
    requires AllProper(options, xs)
    requires !dashes ==> tail == [] || (options.Stops() && (tail[0] == "" || tail[0][0] != '-' || tail[0] == "-"))
    ensures var end := if dashes then ["--"] else [];
            var used, skipped := Arguments(options, xs, false), Arguments(options, xs, true);
            Read(options, Line(options, xs) + (end + tail), 0) == Meaning(AllReports(xs), used, end, skipped, tail)
  {
    hide Read, AllProper, AllReports, Line, Arguments;
    var end := if dashes then ["--"] else [];
    ReadsBack(options, xs, end + tail);
    EndReadsAs(options, dashes, tail);
    var used, skipped := Arguments(options, xs, false), Arguments(options, xs, true);
    assert AllReports(xs) + [] == AllReports(xs) && used + [] == used && skipped + [] == skipped;
  }

  /**
   * A run over a line that was written reports exactly what it was written from, in order, and leaves the options in
   * front, then the double dash, the other arguments, and what follows.
   */
  method RunBack(options: Options, xs: seq<Written>, dashes: bool, tail: seq<string>)
    returns (reports: Option<seq<Report>>, args: seq<string>, index: nat)
    requires AllProper(options, xs)
    requires !dashes ==> tail == [] || (options.Stops() && (tail[0] == "" || tail[0][0] != '-' || tail[0] == "-"))
    ensures reports == Some(AllReports(xs))
    ensures var end := if dashes then ["--"] else [];
            args == Arguments(options, xs, false) + end + Arguments(options, xs, true) + tail
    ensures index == |Arguments(options, xs, false)| + if dashes then 1 else 0
  {
    hide Read, AllProper, AllReports, Line, Arguments, StablyPartitioned;
    var line := Line(options, xs) + ((if dashes then ["--"] else []) + tail);
    LineMeans(options, xs, dashes, tail);
    var given := new string[|line|](i requires 0 <= i < |line| => line[i]);
    assert given[..] == line;
    reports, index := Run(options, given);
    args := given[..];
  }

  /** A fault on a line: what is written before it is of no help. */
  lemma FaultSpreads(options: Options, xs: seq<Written>, rest: seq<string>)
    requires AllProper(options, xs) && Read(options, rest, 0) == Wrong
    ensures Read(options, Line(options, xs) + rest, 0) == Wrong
  {
    hide Read;
    ReadsBack(options, xs, rest);
  }
}
