// Reading command-line options in any order: what an argument list means, element by
// element. Options and their arguments come first, everything else keeps its order.
module Getopt {
  import opened Csvf

  datatype HasArg = NoArgument | RequiredArgument | OptionalArgument

  datatype LongOption = LongOption(name: string, hasArg: HasArg)

  datatype Grammar = Grammar(optstring: string, longopts: seq<LongOption>)

  // What one call reports.
  datatype Output =
    | Short(c: char, arg: Option<string>)
    | Long(index: nat, arg: Option<string>)
    | Invalid(c: char)
    | NeedsArgument(c: char)
    | Unrecognised(name: string)
    | Ambiguous(name: string)
    | Unexpected(index: nat)
    | LongNeedsArgument(index: nat)

  // ---------- Short options ----------

  datatype Kind = Unlisted | Listed(hasArg: HasArg)

  // What the option string says of c: colons after it ask for an argument.
  function KindOf(optstring: string, c: char): Kind
  {
    if optstring == "" || c == ':' then Unlisted
    else if optstring[0] != c then KindOf(optstring[1..], c)
    else if |optstring| < 2 || optstring[1] != ':' then Listed(NoArgument)
    else if |optstring| < 3 || optstring[2] != ':' then Listed(RequiredArgument)
    else Listed(OptionalArgument)
  }

  // What a call reports, what is left of the element it works on, and how many elements it
  // has done with.
  datatype One = One(out: Output, rest: string, taken: nat)

  // The first letter of a cluster; after is what follows its element.
  function ShortOne(g: Grammar, cluster: string, after: seq<string>): (o: One)
    requires cluster != ""
    ensures o.taken == 0 ==> 0 < |o.rest| < |cluster|
    ensures o.taken > 0 ==> o.rest == ""
    ensures o.taken <= 1 + |after|
  {
    var c, rest := cluster[0], cluster[1..];
    var step := if rest == "" then 1 else 0;
    match KindOf(g.optstring, c)
    case Unlisted => One(Invalid(c), rest, step)
    case Listed(NoArgument) => One(Short(c, None), rest, step)
    case Listed(OptionalArgument) => One(Short(c, if rest == "" then None else Some(rest)), "", 1)
    case Listed(RequiredArgument) =>
      if rest != "" then One(Short(c, Some(rest)), "", 1)
      else if after == [] then One(NeedsArgument(c), "", 1)
      else One(Short(c, Some(after[0])), "", 2)
  }

  // ---------- Long options ----------

  datatype Match = NoMatch | Several | Only(index: nat)

  // The table is searched in order; an exact match ends the search.
  function Lookup(opts: seq<LongOption>, bare: string, i: nat, found: Option<nat>, ambig: bool): Match
    requires i <= |opts|
    decreases |opts| - i
  {
    if i == |opts| then if ambig then Several else if found.Some? then Only(found.value) else NoMatch
    else if !(bare <= opts[i].name) then Lookup(opts, bare, i + 1, found, ambig)
    else if bare == opts[i].name then Only(i)
    else if found.None? then Lookup(opts, bare, i + 1, Some(i), ambig)
    else Lookup(opts, bare, i + 1, found, true)
  }

  // A name is an option's if it is its full name, or an abbreviation of it and of no other.
  predicate Denotes(opts: seq<LongOption>, bare: string, i: nat)
  {
    && i < |opts| && bare <= opts[i].name
    && if bare == opts[i].name then forall j :: 0 <= j < i ==> bare != opts[j].name
       else forall j :: 0 <= j < |opts| && j != i ==> !(bare <= opts[j].name)
  }

  lemma {:induction false} LookupFrom(opts: seq<LongOption>, bare: string, i: nat, found: Option<nat>, ambig: bool)
    requires i <= |opts|
    requires forall j :: 0 <= j < i ==> bare != opts[j].name
    requires found.Some? <==> exists j :: 0 <= j < i && bare <= opts[j].name
    requires found.Some? ==> found.value < i && bare <= opts[found.value].name
    requires ambig <==> exists j, k :: 0 <= j < k < i && bare <= opts[j].name && bare <= opts[k].name
    ensures forall k: nat :: Lookup(opts, bare, i, found, ambig) == Only(k) <==> Denotes(opts, bare, k)
    ensures Lookup(opts, bare, i, found, ambig) == NoMatch <==>
            forall j :: 0 <= j < |opts| ==> !(bare <= opts[j].name)
    decreases |opts| - i
  {
    if i < |opts| {
      if !(bare <= opts[i].name) {
        LookupFrom(opts, bare, i + 1, found, ambig);
      } else if bare != opts[i].name {
        LookupFrom(opts, bare, i + 1, if found.None? then Some(i) else found, ambig || found.Some?);
      }
    }
  }

  // The search finds the option denoted, complains of ambiguity exactly when there are
  // candidates and none is denoted, and otherwise finds nothing.
  lemma LookupMeaning(opts: seq<LongOption>, bare: string, k: nat)
    ensures Lookup(opts, bare, 0, None, false) == Only(k) <==> Denotes(opts, bare, k)
    ensures Lookup(opts, bare, 0, None, false) == NoMatch <==>
            forall j :: 0 <= j < |opts| ==> !(bare <= opts[j].name)
  {
    LookupFrom(opts, bare, 0, None, false);
  }

  // The name, up to an equals sign.
  function Bare(name: string): (b: string)
    ensures b <= name && (|b| < |name| ==> name[|b|] == '=')
  {
    if name == "" || name[0] == '=' then "" else name[..1] + Bare(name[1..])
  }

  function LongOne(g: Grammar, name: string, after: seq<string>): (o: One)
    ensures o.rest == "" && 1 <= o.taken <= 1 + |after|
  {
    var bare := Bare(name);
    match Lookup(g.longopts, bare, 0, None, false)
    case NoMatch => One(Output.Unrecognised(name), "", 1)
    case Several => One(Ambiguous(name), "", 1)
    case Only(i) =>
      LookupMeaning(g.longopts, bare, i);
      var hasArg := g.longopts[i].hasArg;
      if |bare| < |name| then
        One(if hasArg == NoArgument then Unexpected(i) else Long(i, Some(name[|bare| + 1..])), "", 1)
      else if hasArg != RequiredArgument then One(Long(i, None), "", 1)
      else if after == [] then One(LongNeedsArgument(i), "", 1)
      else One(Long(i, Some(after[0])), "", 2)
  }

  // ---------- Argument lists ----------

  const DASHES: string := "--"

  predicate IsOption(e: string)
  {
    |e| >= 2 && e[0] == '-'
  }

  // The next option in r; cluster is what is left of its first element when a call has
  // already been at it.
  function NextOne(g: Grammar, cluster: string, r: seq<string>): (o: One)
    requires r != [] && (cluster == "" ==> IsOption(r[0]) && r[0] != DASHES)
    ensures o.taken <= |r|
    ensures o.taken == 0 ==> 0 < |o.rest| < if cluster == "" then |r[0]| else |cluster|
    ensures o.taken > 0 ==> o.rest == ""
  {
    if cluster != "" then ShortOne(g, cluster, r[1..])
    else if r[0][1] == '-' then LongOne(g, r[0][2..], r[1..])
    else ShortOne(g, r[0][1..], r[1..])
  }

  // What an argument list means: what the calls report, the options with their arguments,
  // and the rest.
  datatype Parsed = Parsed(outputs: seq<Output>, options: seq<string>, others: seq<string>)

  function Parse(g: Grammar, cluster: string, r: seq<string>): Parsed
    decreases |r|, if cluster == "" && r != [] then |r[0]| else |cluster|
  {
    if r == [] then Parsed([], [], [])
    else if cluster == "" && r[0] == DASHES then Parsed([], [DASHES], r[1..])
    else if cluster == "" && !IsOption(r[0]) then
      var rest := Parse(g, "", r[1..]);
      Parsed(rest.outputs, rest.options, [r[0]] + rest.others)
    else
      var one := NextOne(g, cluster, r);
      var rest := Parse(g, one.rest, r[one.taken..]);
      Parsed([one.out] + rest.outputs, r[..one.taken] + rest.options, rest.others)
  }

  // Nothing is lost and nothing is made up.
  lemma {:induction false} ParsePermutes(g: Grammar, cluster: string, r: seq<string>)
    ensures var p := Parse(g, cluster, r); multiset(p.options) + multiset(p.others) == multiset(r)
    decreases |r|, if cluster == "" && r != [] then |r[0]| else |cluster|
  {
    if r == [] {
    } else if cluster == "" && r[0] == DASHES {
      assert r == [DASHES] + r[1..];
    } else if cluster == "" && !IsOption(r[0]) {
      ParsePermutes(g, "", r[1..]);
      assert r == [r[0]] + r[1..];
    } else {
      var one := NextOne(g, cluster, r);
      ParsePermutes(g, one.rest, r[one.taken..]);
      assert r == r[..one.taken] + r[one.taken..];
    }
  }

  // r is a shuffle of a and b: every element of r is the next of one or of the other.
  predicate Shuffle(r: seq<string>, a: seq<string>, b: seq<string>)
    decreases |r|
  {
    if r == [] then a == [] && b == []
    else
      || (a != [] && a[0] == r[0] && Shuffle(r[1..], a[1..], b))
      || (b != [] && b[0] == r[0] && Shuffle(r[1..], a, b[1..]))
  }

  lemma {:induction false} ShuffleFirst(front: seq<string>, r: seq<string>, a: seq<string>, b: seq<string>)
    requires Shuffle(r, a, b)
    ensures Shuffle(front + r, front + a, b)
    decreases |front|
  {
    if front == [] {
      assert front + r == r && front + a == a;
    } else {
      ShuffleFirst(front[1..], r, a, b);
      assert (front + r)[1..] == front[1..] + r && (front + a)[1..] == front[1..] + a;
    }
  }

  lemma {:induction false} ShuffleNone(r: seq<string>)
    ensures Shuffle(r, [], r)
    decreases |r|
  {
    if r != [] {
      ShuffleNone(r[1..]);
    }
  }

  // Options and the rest each keep their order.
  lemma {:induction false} ParseShuffles(g: Grammar, cluster: string, r: seq<string>)
    ensures var p := Parse(g, cluster, r); Shuffle(r, p.options, p.others)
    decreases |r|, if cluster == "" && r != [] then |r[0]| else |cluster|
  {
    if r == [] {
    } else if cluster == "" && r[0] == DASHES {
      ShuffleNone(r[1..]);
      ShuffleFirst([DASHES], r[1..], [], r[1..]);
      assert r == [DASHES] + r[1..] && [DASHES] + [] == [DASHES];
    } else if cluster == "" && !IsOption(r[0]) {
      ParseShuffles(g, "", r[1..]);
      var p := Parse(g, cluster, r);
      assert p.others[1..] == Parse(g, "", r[1..]).others;
    } else {
      var one := NextOne(g, cluster, r);
      var rest := Parse(g, one.rest, r[one.taken..]);
      ParseShuffles(g, one.rest, r[one.taken..]);
      ShuffleFirst(r[..one.taken], r[one.taken..], rest.options, rest.others);
      assert r == r[..one.taken] + r[one.taken..];
    }
  }

  // ---------- What a report tells of an element ----------

  // The colons behind the first c in the option string: none, one or two.
  ghost predicate Asks(optstring: string, c: char, hasArg: HasArg)
  {
    c != ':' && exists i {:trigger optstring[i]} ::
      && 0 <= i < |optstring| && optstring[i] == c && (forall j :: 0 <= j < i ==> optstring[j] != c)
      && (hasArg != NoArgument <==> i + 1 < |optstring| && optstring[i + 1] == ':')
      && (hasArg == OptionalArgument <==> i + 2 < |optstring| && optstring[i + 1] == optstring[i + 2] == ':')
  }

  // The option string asks for exactly that, and lists whatever letter is in it but colons.
  lemma {:induction false} KindExact(optstring: string, c: char, hasArg: HasArg)
    ensures KindOf(optstring, c) == Listed(hasArg) <==> Asks(optstring, c, hasArg)
    ensures KindOf(optstring, c) == Unlisted <==> c == ':' || c !in optstring
    decreases |optstring|
  {
    if optstring != "" && c != ':' {
      var rest := optstring[1..];
      if optstring[0] != c {
        KindExact(rest, c, hasArg);
        if Asks(rest, c, hasArg) {
          var i :| && 0 <= i < |rest| && rest[i] == c && (forall j :: 0 <= j < i ==> rest[j] != c)
                   && (hasArg != NoArgument <==> i + 1 < |rest| && rest[i + 1] == ':')
                   && (hasArg == OptionalArgument <==> i + 2 < |rest| && rest[i + 1] == rest[i + 2] == ':');
          assert optstring[i + 1] == c;
        }
      } else {
        assert optstring[0] == c;
      }
    }
  }

  // What is reported of the first letter of a cluster, what is left of the cluster, and how
  // many elements it takes: an argument is what is left or the next element; a letter that is
  // not listed, or lacks its argument, is complained of.
  ghost predicate ShortReport(g: Grammar, cluster: string, after: seq<string>, out: Output, rest: string, taken: nat)
    requires cluster != ""
  {
    var c, tail := cluster[0], cluster[1..];
    var onward := rest == tail && taken == if tail == "" then 1 else 0;
    match out
    case Short(letter, None) =>
      && letter == c
      && (|| (Asks(g.optstring, c, NoArgument) && onward)
          || (Asks(g.optstring, c, OptionalArgument) && tail == "" && rest == "" && taken == 1))
    case Short(letter, Some(arg)) =>
      && letter == c && rest == ""
      && (|| (tail != "" && arg == tail && taken == 1
              && (Asks(g.optstring, c, RequiredArgument) || Asks(g.optstring, c, OptionalArgument)))
          || (tail == "" && after != [] && arg == after[0] && taken == 2 && Asks(g.optstring, c, RequiredArgument)))
    case NeedsArgument(letter) =>
      letter == c && Asks(g.optstring, c, RequiredArgument) && tail == "" && after == [] && rest == "" && taken == 1
    case Invalid(letter) => letter == c && (c == ':' || c !in g.optstring) && onward
    case _ => false
  }

  lemma ShortExact(g: Grammar, cluster: string, after: seq<string>, out: Output, rest: string, taken: nat)
    requires cluster != ""
    ensures ShortOne(g, cluster, after) == One(out, rest, taken)
            <==> ShortReport(g, cluster, after, out, rest, taken)
  {
    hide KindOf, Asks;
    KindExact(g.optstring, cluster[0], NoArgument);
    KindExact(g.optstring, cluster[0], RequiredArgument);
    KindExact(g.optstring, cluster[0], OptionalArgument);
  }

  // The name of a long option ends at an equals sign, if there is one.
  ghost predicate NameOf(name: string, bare: string)
  {
    '=' !in bare && (name == bare || (|bare| < |name| && name[..|bare|] == bare && name[|bare|] == '='))
  }

  lemma {:induction false} BareExact(name: string, bare: string)
    ensures NameOf(name, bare) <==> bare == Bare(name)
    decreases |name|
  {
    if name != "" && name[0] != '=' {
      BareExact(name[1..], Bare(name[1..]));
      if bare == "" {
      } else if bare[0] == name[0] {
        BareExact(name[1..], bare[1..]);
        assert bare == bare[..1] + bare[1..] && name == name[..1] + name[1..];
        assert bare[..1] == name[..1];
        assert '=' !in bare <==> '=' !in bare[1..];
        if |bare| < |name| {
          assert name[..|bare|] == name[..1] + name[1..][..|bare| - 1];
        }
      } else {
        assert |bare| <= |name| ==> name[..|bare|][0] == name[0];
      }
    }
  }

  // What is reported of a long option, and how many elements it takes.
  ghost predicate LongReport(g: Grammar, name: string, bare: string, after: seq<string>, out: Output, taken: nat)
  {
    match out
    case Long(i, None) =>
      name == bare && Denotes(g.longopts, bare, i) && g.longopts[i].hasArg != RequiredArgument && taken == 1
    case Long(i, Some(arg)) =>
      && Denotes(g.longopts, bare, i)
      && (|| (name == bare + "=" + arg && g.longopts[i].hasArg != NoArgument && taken == 1)
          || (name == bare && g.longopts[i].hasArg == RequiredArgument && after != [] && arg == after[0] && taken == 2))
    case Unexpected(i) =>
      name != bare && Denotes(g.longopts, bare, i) && g.longopts[i].hasArg == NoArgument && taken == 1
    case LongNeedsArgument(i) =>
      && name == bare && Denotes(g.longopts, bare, i) && g.longopts[i].hasArg == RequiredArgument
      && after == [] && taken == 1
    case Ambiguous(whole) =>
      && whole == name && taken == 1 && (forall i: nat :: !Denotes(g.longopts, bare, i))
      && exists j :: 0 <= j < |g.longopts| && bare <= g.longopts[j].name
    case Unrecognised(whole) =>
      whole == name && taken == 1 && forall j :: 0 <= j < |g.longopts| ==> !(bare <= g.longopts[j].name)
    case _ => false
  }

  lemma LongExact(g: Grammar, name: string, bare: string, after: seq<string>, out: Output, taken: nat)
    requires NameOf(name, bare)
    ensures LongOne(g, name, after) == One(out, "", taken) <==> LongReport(g, name, bare, after, out, taken)
  {
    hide Lookup, Denotes, Bare;
    BareExact(name, bare);
    forall i: nat
      ensures Lookup(g.longopts, bare, 0, None, false) == Only(i) <==> Denotes(g.longopts, bare, i)
      ensures Denotes(g.longopts, bare, i) ==> i < |g.longopts|
    {
      LookupMeaning(g.longopts, bare, i);
      DenotesInRange(g.longopts, bare, i);
    }
    LookupMeaning(g.longopts, bare, 0);
    if out.Long? && out.arg.Some? && name != bare {
      EqualsSign(name, bare, out.arg.value);
    }
  }

  lemma DenotesInRange(opts: seq<LongOption>, bare: string, i: nat)
    ensures Denotes(opts, bare, i) ==> i < |opts|
  {
  }

  lemma EqualsSign(name: string, bare: string, arg: string)
    requires |bare| < |name| && name[..|bare|] == bare && name[|bare|] == '='
    ensures name == bare + "=" + arg <==> name[|bare| + 1..] == arg
  {
    assert name == name[..|bare|] + [name[|bare|]] + name[|bare| + 1..];
    if name == bare + "=" + arg {
      assert (bare + "=" + arg)[|bare| + 1..] == arg;
    }
  }

  // A call reports on the element at hand, or on what is left of it.
  ghost predicate Reported(g: Grammar, cluster: string, r: seq<string>, c: One)
    requires r != [] && (cluster == "" ==> |r[0]| >= 2)
  {
    if cluster == "" && r[0][1] == '-' then
      c.rest == "" && exists bare :: NameOf(r[0][2..], bare) && LongReport(g, r[0][2..], bare, r[1..], c.out, c.taken)
    else
      ShortReport(g, if cluster == "" then r[0][1..] else cluster, r[1..], c.out, c.rest, c.taken)
  }

  lemma ReportedExact(g: Grammar, cluster: string, r: seq<string>, c: One)
    requires r != [] && (cluster == "" ==> IsOption(r[0]) && r[0] != DASHES)
    ensures Reported(g, cluster, r, c) <==> NextOne(g, cluster, r) == c
  {
    hide ShortOne, LongOne, ShortReport, LongReport, NameOf, Bare;
    if cluster == "" && r[0][1] == '-' {
      var name := r[0][2..];
      BareExact(name, Bare(name));
      forall bare | NameOf(name, bare)
        ensures LongOne(g, name, r[1..]) == One(c.out, "", c.taken)
                <==> LongReport(g, name, bare, r[1..], c.out, c.taken)
      {
        LongExact(g, name, bare, r[1..], c.out, c.taken);
      }
      if LongOne(g, name, r[1..]) == c {
        assert NameOf(name, Bare(name)) && LongReport(g, name, Bare(name), r[1..], c.out, c.taken);
      }
    } else {
      ShortExact(g, if cluster == "" then r[0][1..] else cluster, r[1..], c.out, c.rest, c.taken);
    }
  }

  // The calls made on a list: up to the special element "--", each is about the next element
  // that starts with a dash and is longer than that, or about what is left of one; it takes
  // along the elements it reports on, and all others are left where they are.
  ghost predicate Calls(g: Grammar, cluster: string, r: seq<string>, calls: seq<One>,
                        options: seq<string>, others: seq<string>)
    decreases |r|, |calls|
  {
    if r == [] then calls == [] && options == [] && others == []
    else if cluster == "" && r[0] == "--" then calls == [] && options == ["--"] && others == r[1..]
    else if cluster == "" && (|r[0]| < 2 || r[0][0] != '-') then
      others != [] && others[0] == r[0] && Calls(g, "", r[1..], calls, options, others[1..])
    else
      && calls != [] && Reported(g, cluster, r, calls[0])
      && var taken := calls[0].taken;
         && taken <= |r| && taken <= |options| && options[..taken] == r[..taken]
         && Calls(g, calls[0].rest, r[taken..], calls[1..], options[taken..], others)
  }

  function Outputs(calls: seq<One>): (outs: seq<Output>)
    ensures |outs| == |calls|
  {
    if calls == [] then [] else [calls[0].out] + Outputs(calls[1..])
  }

  // What a list is parsed to is what some calls make of it,
  lemma {:induction false} ParseIsCalls(g: Grammar, cluster: string, r: seq<string>) returns (calls: seq<One>)
    ensures var p := Parse(g, cluster, r);
            Outputs(calls) == p.outputs && Calls(g, cluster, r, calls, p.options, p.others)
    decreases |r|, if cluster == "" && r != [] then |r[0]| else |cluster|
  {
    hide NextOne, Reported;
    if r == [] || (cluster == "" && r[0] == DASHES) {
      calls := [];
    } else if cluster == "" && !IsOption(r[0]) {
      calls := ParseIsCalls(g, "", r[1..]);
      var rest := Parse(g, "", r[1..]);
      assert ([r[0]] + rest.others)[1..] == rest.others;
    } else {
      var one := NextOne(g, cluster, r);
      ReportedExact(g, cluster, r, one);
      var more := ParseIsCalls(g, one.rest, r[one.taken..]);
      var rest := Parse(g, one.rest, r[one.taken..]);
      calls := [one] + more;
      assert calls[1..] == more;
      assert (r[..one.taken] + rest.options)[..one.taken] == r[..one.taken];
      assert (r[..one.taken] + rest.options)[one.taken..] == rest.options;
    }
  }

  // and nothing else can be made of it.
  lemma {:induction false} CallsAreParsed(g: Grammar, cluster: string, r: seq<string>, calls: seq<One>,
                                          options: seq<string>, others: seq<string>)
    requires Calls(g, cluster, r, calls, options, others)
    ensures Parse(g, cluster, r) == Parsed(Outputs(calls), options, others)
    decreases |r|, |calls|
  {
    hide NextOne, Reported;
    if r == [] || (cluster == "" && r[0] == DASHES) {
    } else if cluster == "" && !IsOption(r[0]) {
      CallsAreParsed(g, "", r[1..], calls, options, others[1..]);
      assert others == [others[0]] + others[1..];
    } else {
      var one := calls[0];
      FirstCall(g, cluster, r, calls, options, others);
      hide Calls;
      CallsAreParsed(g, one.rest, r[one.taken..], calls[1..], options[one.taken..], others);
      assert options == options[..one.taken] + options[one.taken..];
    }
  }

  lemma FirstCall(g: Grammar, cluster: string, r: seq<string>, calls: seq<One>,
                  options: seq<string>, others: seq<string>)
    requires Calls(g, cluster, r, calls, options, others) && r != []
    requires cluster != "" || (IsOption(r[0]) && r[0] != DASHES)
    ensures calls != [] && NextOne(g, cluster, r) == calls[0] && calls[0].taken <= |r|
    ensures calls[0].taken <= |options| && options[..calls[0].taken] == r[..calls[0].taken]
    ensures Calls(g, calls[0].rest, r[calls[0].taken..], calls[1..], options[calls[0].taken..], others)
  {
    hide NextOne, Reported;
    ReportedExact(g, cluster, r, calls[0]);
  }
}
