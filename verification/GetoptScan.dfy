// The scanner itself: it permutes the argument array in place while it hands out options.
module GetoptScan {
  import opened Bytes
  import opened Csvf
  import opened Getopt

  // ---------- Exchanging two adjacent blocks ----------

  // s with the blocks [bottom, middle) and [middle, top) exchanged.
  function Rotated(s: seq<string>, bottom: nat, middle: nat, top: nat): (r: seq<string>)
    requires bottom <= middle <= top <= |s|
    ensures |r| == |s|
    ensures forall i {:trigger r[i]} :: 0 <= i < |s| ==>
              r[i] == if i < bottom || i >= top then s[i]
                      else if i < bottom + (top - middle) then s[middle + (i - bottom)]
                      else s[i - (top - middle)]
  {
    s[..bottom] + s[middle..top] + s[bottom..middle] + s[top..]
  }

  // s with the blocks of the given length at p and at q swapped.
  predicate Swapped(s: seq<string>, r: seq<string>, p: nat, q: nat, len: nat)
  {
    && p + len <= q && q + len <= |s| == |r|
    && forall i {:trigger r[i]} :: 0 <= i < |s| ==>
         r[i] == if p <= i < p + len then s[q + (i - p)] else if q <= i < q + len then s[p + (i - q)] else s[i]
  }

  lemma SwapBottom(s: seq<string>, r: seq<string>, bottom: nat, middle: nat, top: nat)
    requires bottom <= middle <= top <= |s| && top - middle > middle - bottom
    requires Swapped(s, r, bottom, top - (middle - bottom), middle - bottom)
    ensures Rotated(r, bottom, middle, top - (middle - bottom)) == Rotated(s, bottom, middle, top)
  {
    hide Rotated;
    var x, y := Rotated(r, bottom, middle, top - (middle - bottom)), Rotated(s, bottom, middle, top);
    assert forall i :: 0 <= i < |s| ==> x[i] == y[i];
  }

  lemma SwapTop(s: seq<string>, r: seq<string>, bottom: nat, middle: nat, top: nat)
    requires bottom <= middle <= top <= |s| && top - middle <= middle - bottom
    requires Swapped(s, r, bottom, middle, top - middle)
    ensures Rotated(r, bottom + (top - middle), middle, top) == Rotated(s, bottom, middle, top)
  {
    hide Rotated;
    var x, y := Rotated(r, bottom + (top - middle), middle, top), Rotated(s, bottom, middle, top);
    assert forall i :: 0 <= i < |s| ==> x[i] == y[i];
  }

  lemma RotateNothing(s: seq<string>, bottom: nat, middle: nat, top: nat)
    requires bottom <= middle <= top <= |s|
    ensures bottom == middle || middle == top ==> Rotated(s, bottom, middle, top) == s
  {
    if bottom == middle || middle == top {
      var x := Rotated(s, bottom, middle, top);
      assert forall i :: 0 <= i < |s| ==> x[i] == s[i];
    }
  }

  method SwapBlocks(argv: array<string>, p: nat, q: nat, len: nat)
    requires p + len <= q && q + len <= argv.Length
    modifies argv
    ensures Swapped(old(argv[..]), argv[..], p, q, len)
  {
    var i := 0;
    while i < len
      invariant 0 <= i <= len
      invariant forall j :: 0 <= j < argv.Length ==>
                  argv[j] == if p <= j < p + i then old(argv[q + (j - p)])
                             else if q <= j < q + i then old(argv[p + (j - q)]) else old(argv[j])
    {
      var tem := argv[p + i];
      argv[p + i] := argv[q + i];
      argv[q + i] := tem;
      i := i + 1;
    }
  }

  // Exchange the shorter block with the far end of the longer, again and again.
  method RotateInPlace(argv: array<string>, firstNonopt: nat, lastNonopt: nat, optind: nat)
    requires firstNonopt <= lastNonopt <= optind <= argv.Length
    modifies argv
    ensures argv[..] == Rotated(old(argv[..]), firstNonopt, lastNonopt, optind)
  {
    hide Rotated, Swapped;
    var bottom: nat, middle: nat, top: nat := firstNonopt, lastNonopt, optind;
    ghost var want := Rotated(argv[..], bottom, middle, top);
    while top > middle && middle > bottom
      invariant bottom <= middle <= top <= argv.Length
      invariant Rotated(argv[..], bottom, middle, top) == want
      decreases top - bottom
    {
      ghost var before := argv[..];
      if top - middle > middle - bottom {
        var len: nat := middle - bottom;
        SwapBlocks(argv, bottom, top - len, len);
        SwapBottom(before, argv[..], bottom, middle, top);
        top := top - len;
      } else {
        var len: nat := top - middle;
        SwapBlocks(argv, bottom, middle, len);
        SwapTop(before, argv[..], bottom, middle, top);
        bottom := bottom + len;
      }
    }
    RotateNothing(argv[..], bottom, middle, top);
  }

  function Min(a: nat, b: nat): nat
  {
    if a < b then a else b
  }

  method BareName(name: string) returns (bare: string)
    ensures bare == Bare(name)
  {
    BareExact(name, Bare(name));
    hide Bare;
    var nameend := 0;
    while nameend < |name| && name[nameend] != '='
      invariant nameend <= |name| && '=' !in name[..nameend]
    {
      nameend := nameend + 1;
    }
    bare := name[..nameend];
    BareExact(name, bare);
  }

  // The search through the table of long options.
  method FindLong(opts: seq<LongOption>, bare: string) returns (m: Match)
    ensures m == Lookup(opts, bare, 0, None, false)
  {
    var pfound: Option<nat>, ambig, i: nat := None, false, 0;
    while i < |opts|
      invariant i <= |opts|
      invariant Lookup(opts, bare, i, pfound, ambig) == Lookup(opts, bare, 0, None, false)
    {
      if bare <= opts[i].name {
        if bare == opts[i].name {
          return Only(i);
        } else if pfound.None? {
          pfound := Some(i);
        } else {
          ambig := true;
        }
      }
      i := i + 1;
    }
    m := if ambig then Several else if pfound.Some? then Only(pfound.value) else NoMatch;
  }

  // ---------- What the scanner keeps ----------

  // In front are the options done with, then [first, last) has been skipped, then come the
  // options done with since, and from optind on nothing has been touched. What all this
  // means is what the original list meant; given has been reported.
  predicate Scanned(g: Grammar, orig: seq<string>, a: seq<string>, first: nat, last: nat, optind: nat,
                    cluster: string, given: seq<Output>)
  {
    && 1 <= first <= last <= optind <= |a| == |orig| && a[0] == orig[0]
    && (cluster != "" ==> optind < |a|)
    && var p := Parse(g, cluster, a[optind..]);
       Parse(g, "", orig[1..])
       == Parsed(given + p.outputs, a[1..first] + a[last..optind] + p.options, a[first..last] + p.others)
  }

  // Everything has been reported: the options are in front of optind, the rest after it.
  predicate Finished(g: Grammar, orig: seq<string>, a: seq<string>, optind: nat, given: seq<Output>)
  {
    && 1 <= optind <= |a| == |orig| && a[0] == orig[0]
    && Parse(g, "", orig[1..]) == Parsed(given, a[1..optind], a[optind..])
  }

  lemma ScanStart(g: Grammar, orig: seq<string>)
    requires |orig| >= 1
    ensures Scanned(g, orig, orig, 1, 1, 1, "", [])
  {
    hide Parse;
    var p := Parse(g, "", orig[1..]);
    assert [] + p.outputs == p.outputs && orig[1..1] + orig[1..1] + p.options == p.options;
    assert orig[1..1] + p.others == p.others;
  }

  lemma ScanExchange(g: Grammar, orig: seq<string>, a: seq<string>, first: nat, last: nat, optind: nat,
       given: seq<Output>)
    requires Scanned(g, orig, a, first, last, optind, "", given)
    ensures Scanned(g, orig, Rotated(a, first, last, optind), first + (optind - last), optind, optind, "", given)
  {
    hide Parse;
    var b, mid := Rotated(a, first, last, optind), first + (optind - last);
    assert b[optind..] == a[optind..];
    assert b[1..mid] + b[optind..optind] == a[1..first] + a[last..optind];
    assert b[mid..optind] == a[first..last];
  }

  lemma ScanSkip(g: Grammar, orig: seq<string>, a: seq<string>, first: nat, optind: nat, given: seq<Output>)
    requires Scanned(g, orig, a, first, optind, optind, "", given) && optind < |a| && !IsOption(a[optind])
    ensures Scanned(g, orig, a, first, optind + 1, optind + 1, "", given)
  {
    hide NextOne;
    var r := a[optind..];
    assert r[1..] == a[optind + 1..];
    assert a[optind..optind] == a[optind + 1..optind + 1] == [];
    var rest := Parse(g, "", r[1..]);
    assert a[first..optind] + ([r[0]] + rest.others) == a[first..optind + 1] + rest.others;
  }

  lemma ScanMerge(g: Grammar, orig: seq<string>, a: seq<string>, first: nat, optind: nat, given: seq<Output>)
    requires Scanned(g, orig, a, first, first, optind, "", given)
    ensures Scanned(g, orig, a, optind, optind, optind, "", given)
  {
    hide Parse;
    assert a[1..first] + a[first..optind] == a[1..optind] + a[optind..optind];
    assert a[first..first] == a[optind..optind];
  }

  lemma ScanOption(g: Grammar, orig: seq<string>, a: seq<string>, first: nat, last: nat, optind: nat,
                   cluster: string, given: seq<Output>)
    requires Scanned(g, orig, a, first, last, optind, cluster, given) && optind < |a|
    requires cluster == "" ==> IsOption(a[optind]) && a[optind] != DASHES
    ensures var one := NextOne(g, cluster, a[optind..]);
            Scanned(g, orig, a, first, last, optind + one.taken, one.rest, given + [one.out])
  {
    hide NextOne;
    var r := a[optind..];
    var one := NextOne(g, cluster, r);
    var rest := Parse(g, one.rest, r[one.taken..]);
    assert r[one.taken..] == a[optind + one.taken..];
    assert given + ([one.out] + rest.outputs) == given + [one.out] + rest.outputs;
    assert a[1..first] + a[last..optind] + (r[..one.taken] + rest.options)
        == a[1..first] + a[last..optind + one.taken] + rest.options;
  }

  lemma ParseDashes(g: Grammar, r: seq<string>)
    requires r != [] && r[0] == DASHES
    ensures Parse(g, "", r) == Parsed([], [DASHES], r[1..])
  {
    hide NextOne;
  }

  // Where the parts of a list are once the element at k has been put in front of those from
  // first on.
  lemma OneInFront(a: seq<string>, first: nat, k: nat)
    requires 1 <= first <= k < |a|
    ensures var b := Rotated(a, first, k, k + 1);
            b[0] == a[0] && b[1..first + 1] == a[1..first] + [a[k]] && b[first + 1..] == a[first..k] + a[k + 1..]
  {
    var b := Rotated(a, first, k, k + 1);
    assert b == a[..first] + [a[k]] + a[first..k] + a[k + 1..];
  }

  lemma ScanDashes(g: Grammar, orig: seq<string>, a: seq<string>, first: nat, optind: nat, given: seq<Output>)
    requires Scanned(g, orig, a, first, optind, optind, "", given) && optind < |a| && a[optind] == DASHES
    ensures Finished(g, orig, Rotated(a, first, optind, optind + 1), first + 1, given)
    ensures first == optind ==> Finished(g, orig, a, first + 1, given)
  {
    RotateNothing(a, first, optind, optind + 1);
    hide Parse, Rotated;
    ParseDashes(g, a[optind..]);
    OneInFront(a, first, optind);
    assert given + [] == given;
    assert a[1..first] + a[optind..optind] + [DASHES] == a[1..first] + [DASHES];
    assert a[optind..][1..] == a[optind + 1..];
  }

  // The list with the dashes in front of what was skipped.
  ghost predicate DashesInFront(a: seq<string>, first: nat, dashes: nat, b: seq<string>)
  {
    first <= dashes < |a| && if first == dashes then b == a else RotatedTo(a, first, dashes, dashes + 1, b)
  }

  ghost predicate RotatedTo(a: seq<string>, bottom: nat, middle: nat, top: nat, b: seq<string>)
  {
    bottom <= middle <= top <= |a| && b == Rotated(a, bottom, middle, top)
  }

  lemma RotatedOnce(a: seq<string>, bottom: nat, middle: nat, top: nat, b: seq<string>, c: seq<string>)
    requires RotatedTo(a, bottom, middle, top, b) && RotatedTo(a, bottom, middle, top, c)
    ensures b == c
  {
  }

  lemma DashesEnd(g: Grammar, orig: seq<string>, a: seq<string>, first: nat, optind: nat, given: seq<Output>)
    returns (b: seq<string>)
    requires Scanned(g, orig, a, first, optind, optind, "", given) && optind < |a| && a[optind] == DASHES
    ensures DashesInFront(a, first, optind, b) && Finished(g, orig, b, first + 1, given)
  {
    hide Rotated, Finished;
    ScanDashes(g, orig, a, first, optind, given);
    ScannedInRange(g, orig, a, first, optind, optind, "", given);
    b := if first == optind then a else Rotated(a, first, optind, optind + 1);
  }

  lemma ScanEnd(g: Grammar, orig: seq<string>, a: seq<string>, first: nat, given: seq<Output>)
    requires Scanned(g, orig, a, first, |a|, |a|, "", given)
    ensures Finished(g, orig, a, first, given)
  {
    assert a[|a|..] == [];
    assert given + [] == given && a[1..first] + [] + [] == a[1..first] && a[first..|a|] + [] == a[first..];
  }

  // ---------- The scanner ----------

  // One scan of an argument array in PERMUTE mode; the caller leaves optind alone.
  class Scanner {
    const g: Grammar
    const argv: array<string>
    var optind: nat
    var firstNonopt: nat
    var lastNonopt: nat
    var nextchar: string

    // The arguments as they were, and what has been reported.
    ghost const orig: seq<string>
    ghost var given: seq<Output>

    ghost predicate Scanning()
      reads this, argv
    {
      Scanned(g, orig, argv[..], firstNonopt, lastNonopt, optind, nextchar, given)
    }

    constructor (g: Grammar, argv: array<string>)
      requires argv.Length >= 1
      ensures Scanning() && given == []
      ensures this.g == g && this.argv == argv && orig == argv[..]
    {
      this.g, this.argv, orig := g, argv, argv[..];
      optind, firstNonopt, lastNonopt, nextchar := 1, 1, 1, "";
      given := [];
      ScanStart(g, argv[..]);
    }

    method Exchange()
      requires firstNonopt <= lastNonopt <= optind <= argv.Length
      modifies argv, this`firstNonopt, this`lastNonopt
      ensures RotatedTo(old(argv[..]), old(firstNonopt), old(lastNonopt), optind, argv[..])
      ensures firstNonopt == old(firstNonopt) + (optind - old(lastNonopt)) && lastNonopt == optind
    {
      RotateInPlace(argv, firstNonopt, lastNonopt, optind);
      firstNonopt := firstNonopt + (optind - lastNonopt);
      lastNonopt := optind;
    }

    // Put the options done with in front of what was skipped, and skip some more.
    method SkipNonoptions()
      requires Scanning() && nextchar == ""
      modifies argv, this`firstNonopt, this`lastNonopt, this`optind
      ensures Scanning() && lastNonopt == optind
      ensures optind < argv.Length ==> IsOption(argv[optind])
    {
      hide Scanned, Rotated;
      ScannedInRange(g, orig, argv[..], firstNonopt, lastNonopt, optind, nextchar, given);
      lastNonopt := Min(lastNonopt, optind);
      firstNonopt := Min(firstNonopt, optind);
      if firstNonopt != lastNonopt && lastNonopt != optind {
        ScanExchange(g, orig, argv[..], firstNonopt, lastNonopt, optind, given);
        Exchange();
      } else if lastNonopt != optind {
        ScanMerge(g, orig, argv[..], firstNonopt, optind, given);
        firstNonopt := optind;
      }
      while optind < argv.Length && !IsOption(argv[optind])
        invariant optind <= argv.Length
        invariant Scanned(g, orig, argv[..], firstNonopt, optind, optind, "", given)
      {
        ScanSkip(g, orig, argv[..], firstNonopt, optind, given);
        optind := optind + 1;
      }
      lastNonopt := optind;
      ScannedInRange(g, orig, argv[..], firstNonopt, lastNonopt, optind, nextchar, given);
    }

    // Take the dashes as an option, and all that follows them as skipped.
    method TakeDashes()
      requires Scanning() && nextchar == "" && lastNonopt == optind < argv.Length && argv[optind] == DASHES
      modifies argv, this`firstNonopt, this`lastNonopt, this`optind
      ensures Finished(g, orig, argv[..], firstNonopt, given)
      ensures firstNonopt <= lastNonopt == optind == argv.Length
    {
      hide Scanned, Finished, IsOption, DashesInFront, RotatedTo, Parse;
      ScannedInRange(g, orig, argv[..], firstNonopt, lastNonopt, optind, nextchar, given);
      ghost var b := DashesEnd(g, orig, argv[..], firstNonopt, optind, given);
      PutInFront(b);
    }

    // Bring the dashes in front of what was skipped.
    method PutInFront(ghost b: seq<string>)
      requires firstNonopt <= lastNonopt == optind < argv.Length && DashesInFront(argv[..], firstNonopt, optind, b)
      modifies argv, this`firstNonopt, this`lastNonopt, this`optind
      ensures argv[..] == b && firstNonopt == old(firstNonopt) + 1 <= lastNonopt == optind == argv.Length
    {
      hide RotatedTo;
      ghost var a, first, dashes := argv[..], firstNonopt, optind;
      MoveOn(optind + 1, firstNonopt, lastNonopt);
      if firstNonopt != lastNonopt && lastNonopt != optind {
        Exchange();
        RotatedOnce(a, first, dashes, dashes + 1, argv[..], b);
      } else if firstNonopt == lastNonopt {
        firstNonopt := optind;
      }
      MoveOn(argv.Length, firstNonopt, argv.Length);
    }

    // Move the scan along a list that stays as it is.
    method MoveOn(at: nat, first: nat, last: nat)
      modifies this`firstNonopt, this`lastNonopt, this`optind
      ensures optind == at && firstNonopt == first && lastNonopt == last && argv[..] == old(argv[..])
    {
      optind, firstNonopt, lastNonopt := at, first, last;
    }

    // Go to the next option, if there is one.
    method Advance() returns (more: bool)
      requires Scanning() && nextchar == ""
      modifies argv, this`firstNonopt, this`lastNonopt, this`optind
      ensures more ==> Scanning() && optind < argv.Length && IsOption(argv[optind]) && argv[optind] != DASHES
      ensures !more ==> Finished(g, orig, argv[..], optind, given)
    {
      SkipNonoptions();
      hide Scanned, Rotated, Finished;
      ScannedInRange(g, orig, argv[..], firstNonopt, lastNonopt, optind, nextchar, given);
      if optind != argv.Length && argv[optind] == DASHES {
        TakeDashes();
      } else if optind == argv.Length {
        ScanEnd(g, orig, argv[..], firstNonopt, given);
      }
      if optind == argv.Length {
        if firstNonopt != lastNonopt {
          optind := firstNonopt;
        }
        return false;
      }
      more := true;
    }

    // Report the first letter of the cluster.
    method DecodeShort() returns (out: Output)
      requires nextchar != "" && optind < argv.Length
      modifies this`nextchar, this`optind
      ensures var one := ShortOne(g, old(nextchar), argv[old(optind) + 1..]);
              out == one.out && nextchar == one.rest && optind == old(optind) + one.taken
    {
      hide KindOf;
      var c := nextchar[0];
      nextchar := nextchar[1..];
      if nextchar == "" {
        optind := optind + 1;
      }
      match KindOf(g.optstring, c)
      case Unlisted => out := Invalid(c);
      case Listed(NoArgument) => out := Short(c, None);
      case Listed(OptionalArgument) =>
        if nextchar != "" {
          out := Short(c, Some(nextchar));
          optind := optind + 1;
        } else {
          out := Short(c, None);
        }
        nextchar := "";
      case Listed(RequiredArgument) =>
        if nextchar != "" {
          out := Short(c, Some(nextchar));
          optind := optind + 1;
        } else if optind == argv.Length {
          out := NeedsArgument(c);
        } else {
          out := Short(c, Some(argv[optind]));
          optind := optind + 1;
        }
        nextchar := "";
    }

    // Report a long option.
    method DecodeLong() returns (out: Output)
      requires optind < argv.Length
      modifies this`nextchar, this`optind
      ensures var one := LongOne(g, old(nextchar), argv[old(optind) + 1..]);
              out == one.out && nextchar == one.rest && optind == old(optind) + one.taken
    {
      hide Lookup;
      var name := nextchar;
      var bare := BareName(name);
      var pfound := FindLong(g.longopts, bare);
      var nameend := |bare|;
      nextchar := "";
      optind := optind + 1;
      match pfound
      case NoMatch => out := Output.Unrecognised(name);
      case Several => out := Ambiguous(name);
      case Only(i) =>
        LookupMeaning(g.longopts, bare, i);
        var hasArg := g.longopts[i].hasArg;
        if nameend < |name| {
          out := if hasArg != NoArgument then Long(i, Some(name[nameend + 1..])) else Unexpected(i);
        } else if hasArg == RequiredArgument {
          if optind < argv.Length {
            out := Long(i, Some(argv[optind]));
            optind := optind + 1;
          } else {
            out := LongNeedsArgument(i);
          }
        } else {
          out := Long(i, None);
        }
    }

    // One call: the next thing to report, or None when there is nothing left.
    method GetoptInternal() returns (r: Option<Output>)
      requires Scanning()
      modifies this, argv
      ensures r.Some? ==> Scanning() && given == old(given) + [r.value]
      ensures r.None? ==> given == old(given) && Finished(g, orig, argv[..], optind, given)
    {
      hide Scanned, Finished, ShortOne, LongOne, Parse;
      var atElement := nextchar == "";
      if atElement {
        var more := Advance();
        if !more {
          return None;
        }
      }
      ScannedInRange(g, orig, argv[..], firstNonopt, lastNonopt, optind, nextchar, given);
      ScanOption(g, orig, argv[..], firstNonopt, lastNonopt, optind, nextchar, given);
      ghost var one := NextOne(g, nextchar, argv[optind..]);
      assert argv[optind..][1..] == argv[optind + 1..];
      var out;
      if atElement && argv[optind][1] == '-' {
        nextchar := argv[optind][2..];
        out := DecodeLong();
      } else {
        nextchar := if atElement then argv[optind][1..] else nextchar;
        out := DecodeShort();
      }
      given := given + [out];
      r := Some(out);
    }
  }

  // A whole run: every option is reported, in order; the argument array becomes a shuffle
  // undone, options first and the rest from optind on.
  method Scan(g: Grammar, argv: array<string>) returns (outputs: seq<Output>, optind: nat)
    requires argv.Length >= 1
    modifies argv
    ensures var p := Parse(g, "", old(argv[1..]));
            && outputs == p.outputs
            && argv[..] == old(argv[..1]) + p.options + p.others && optind == 1 + |p.options|
            && multiset(argv[..]) == multiset(old(argv[..]))
            && Shuffle(old(argv[1..]), p.options, p.others)
    ensures 1 <= optind <= argv.Length && exists calls ::
              Outputs(calls) == outputs && Calls(g, "", old(argv[1..]), calls, argv[1..optind], argv[optind..])
  {
    hide Scanned, Parse, Shuffle, Calls;
    ghost var orig := argv[..];
    assert orig[1..] == argv[1..] && orig[..1] == argv[..1];
    var scanner := new Scanner(g, argv);
    outputs := [];
    ghost var p := Parse(g, "", orig[1..]);
    var more := true;
    while more
      invariant scanner.argv == argv && scanner.g == g && scanner.orig == orig && fresh(scanner)
      invariant more ==> scanner.Scanning() && scanner.given == outputs
      invariant !more ==> Finished(g, orig, argv[..], scanner.optind, outputs)
      decreases if more then 1 + |p.outputs| - |outputs| else 0
    {
      var r := scanner.GetoptInternal();
      if r.Some? {
        outputs := outputs + [r.value];
        GivenSoFar(g, orig, argv[..], scanner.firstNonopt, scanner.lastNonopt, scanner.optind, scanner.nextchar,
             outputs);
      } else {
        more := false;
      }
    }
    optind := scanner.optind;
    ParsePermutes(g, "", orig[1..]);
    ParseShuffles(g, "", orig[1..]);
    ghost var calls := ParseIsCalls(g, "", orig[1..]);
    assert argv[..] == orig[..1] + p.options + p.others;
    assert argv[1..optind] == p.options && argv[optind..] == p.others;
    assert orig == orig[..1] + orig[1..];
  }

  lemma GivenSoFar(g: Grammar, orig: seq<string>, a: seq<string>, first: nat, last: nat, optind: nat,
                   cluster: string, given: seq<Output>)
    requires Scanned(g, orig, a, first, last, optind, cluster, given)
    ensures given <= Parse(g, "", orig[1..]).outputs
  {
    hide Parse;
  }

  lemma ScannedInRange(g: Grammar, orig: seq<string>, a: seq<string>, first: nat, last: nat, optind: nat,
                       cluster: string, given: seq<Output>)
    requires Scanned(g, orig, a, first, last, optind, cluster, given)
    ensures 1 <= first <= last <= optind <= |a| && (cluster != "" ==> optind < |a|)
  {
  }
}
