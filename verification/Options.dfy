/**
 Long-option matching in the command line parser (click/lib/clp.c): how many
 characters of each long option must be given, and which option a possibly
 abbreviated argument selects.

 Strings are NUL-free; character sets are single bytes (UTF-8 mode off).
 */
module Options {
  import opened Bytes

  const EQUALS: Byte := 61
  const DASH: Byte := 45
  const MAX_AMBIGUOUS_VALUES := 4

  /** An option definition after its flags are set up; `name` is the long name without a leading "no-". */
  datatype Opt = Opt(id: int, short: int, name: Str, ilong: bool, ishort: bool, ipos: bool, ineg: bool,
                     iprefmatch: bool)

  /** What the option check computes for an option. */
  datatype Lmm = Lmm(pos: nat, neg: nat, posShort: bool, negShort: bool)

  /** `strncmp(s, t, n) == 0` */
  predicate SameUpTo(s: Str, t: Str, n: nat) {
    if n <= |s| then s[..n] <= t else s == t
  }

  // ---------------------------------------------------------------- how much must be typed

  /** `min_different_chars` */
  method MinDifferentChars(s: Str, t: Str) returns (n: nat)
    ensures n <= |s|
    ensures forall p :: p <= s ==> (|p| >= n <==> p == s || !(p <= t))
  {
    var k := 0;
    while k < |s| && k < |t| && s[k] == t[k]
      invariant k <= |s| && k <= |t| && s[..k] == t[..k]
    {
      k := k + 1;
    }
    n := if k == |s| then k else k + 1;
    forall p | p <= s ensures |p| >= n <==> p == s || !(p <= t) {
      assert p == s[..|p|];
      if |p| <= k {
        assert p == t[..|p|] by { assert p == s[..k][..|p|] == t[..k][..|p|]; }
      }
    }
  }

  /** The two options can stand on the same side of the command line. */
  ghost predicate SameSide(o1: Opt, o2: Opt, negated: bool) {
    if negated then o1.ineg && o2.ineg else o1.ipos && o2.ipos
  }

  /** `o2`'s long name can make an abbreviation of `o1`'s ambiguous. */
  ghost predicate Rival(o1: Opt, o2: Opt, negated: bool) {
    o2.ilong && o1.id != o2.id && SameSide(o1, o2, negated) && !(o1.iprefmatch && o1.name <= o2.name)
  }

  /** `o2`'s short name is the first letter of `o1`'s long name. */
  ghost predicate ShortClash(o1: Opt, o2: Opt, negated: bool) {
    && o2.ishort && o1.id != o2.id && SameSide(o1, o2, negated) && !o1.iprefmatch
    && o1.name != [] && o1.name[0] == o2.short
  }

  /** The abbreviation `t` of `o1` cannot be taken for `o2`. */
  ghost predicate Tells(t: Str, o1: Opt, o2: Opt, negated: bool) {
    Rival(o1, o2, negated) ==> t == o1.name || !(t <= o2.name)
  }

  /** Both are called "no-" and nothing else. */
  ghost predicate EmptyRival(o: Opt, opts: seq<Opt>, n: int, negated: bool) {
    exists j :: 0 <= j < n <= |opts| && Rival(o, opts[j], negated) && opts[j].name == []
  }

  /** From one up to the whole name; a name that is empty after "no-" has one, or none if it has a rival like it. */
  ghost predicate InBounds(o: Opt, opts: seq<Opt>, n: int, negated: bool, lmm: nat) {
    if o.name != [] then 1 <= lmm <= |o.name| else lmm == if EmptyRival(o, opts, n, negated) then 0 else 1
  }

  /** `lmm` characters are what it takes to tell `o` from the first `n` options. */
  ghost predicate Threshold(o: Opt, opts: seq<Opt>, n: int, negated: bool, lmm: nat) {
    && 0 <= n <= |opts| && InBounds(o, opts, n, negated, lmm)
    && forall t :: t != [] && t <= o.name ==>
         (|t| >= lmm <==> forall j :: 0 <= j < n ==> Tells(t, o, opts[j], negated))
  }

  /** One side's update of the longest minimum match against one other option. */
  method UpdateLmm(o1: Opt, o2: Opt, same: bool, lmm: nat) returns (lmm': nat)
    requires if o1.name != [] then 1 <= lmm <= |o1.name| else lmm <= 1
    ensures if o1.name != [] then 1 <= lmm' <= |o1.name|
            else lmm' == if same && !o1.iprefmatch && o2.name == [] then 0 else lmm
    ensures forall t :: t != [] && t <= o1.name ==>
              (|t| >= lmm' <==>
                 && |t| >= lmm
                 && (same && !(o1.iprefmatch && o1.name <= o2.name) ==> t == o1.name || !(t <= o2.name)))
  {
    lmm' := lmm;
    if same && SameUpTo(o1.name, o2.name, lmm) && (!o1.iprefmatch || !(o1.name <= o2.name)) {
      lmm' := MinDifferentChars(o1.name, o2.name);
      if o1.name != [] {
        var p := o1.name[..lmm];
        assert p <= o1.name && p <= o2.name;
        assert forall t :: t <= o1.name && |t| < lmm ==> t == p[..|t|];
      }
    } else if same && !(o1.iprefmatch && o1.name <= o2.name) {
      forall t | t != [] && t <= o1.name && |t| >= lmm ensures !(t <= o2.name) {
        assert o1.name[..lmm] == t[..lmm];
      }
    }
  }

  ghost predicate AnyShortClash(o: Opt, opts: seq<Opt>, n: int, negated: bool) {
    exists j :: 0 <= j < n <= |opts| && ShortClash(o, opts[j], negated)
  }

  /** An option's thresholds and short-name clashes against the first `n` options. */
  ghost predicate Checked(o: Opt, opts: seq<Opt>, n: int, io: Lmm) {
    && Threshold(o, opts, n, false, io.pos)
    && Threshold(o, opts, n, true, io.neg)
    && (io.posShort <==> AnyShortClash(o, opts, n, false))
    && (io.negShort <==> AnyShortClash(o, opts, n, true))
  }

  /** One side's update covers one more option. */
  lemma ThresholdStep(o: Opt, opts: seq<Opt>, n: int, negated: bool, lmm: nat, lmm': nat)
    requires Threshold(o, opts, n, negated, lmm) && n < |opts|
    requires if o.name != [] then 1 <= lmm' <= |o.name|
             else lmm' == if Rival(o, opts[n], negated) && opts[n].name == [] then 0 else lmm
    requires forall t :: t != [] && t <= o.name ==> (|t| >= lmm' <==> |t| >= lmm && Tells(t, o, opts[n], negated))
    ensures Threshold(o, opts, n + 1, negated, lmm')
  {
    forall t | t != [] && t <= o.name
      ensures |t| >= lmm' <==> forall j :: 0 <= j < n + 1 ==> Tells(t, o, opts[j], negated)
    {
      assert |t| >= lmm <==> forall j :: 0 <= j < n ==> Tells(t, o, opts[j], negated);
    }
    EmptyRivalStep(o, opts, n, negated);
  }

  lemma EmptyRivalStep(o: Opt, opts: seq<Opt>, n: int, negated: bool)
    requires 0 <= n < |opts|
    ensures EmptyRival(o, opts, n + 1, negated) <==>
              EmptyRival(o, opts, n, negated) || (Rival(o, opts[n], negated) && opts[n].name == [])
  {}

  lemma ClashStep(o: Opt, opts: seq<Opt>, n: int, negated: bool)
    requires 0 <= n < |opts|
    ensures AnyShortClash(o, opts, n + 1, negated) <==>
              AnyShortClash(o, opts, n, negated) || ShortClash(o, opts[n], negated)
  {}

  /** `compare_options`, for an option with a long name. */
  method CompareOptions(o1: Opt, io: Lmm, o2: Opt, ghost opts: seq<Opt>, ghost n: int) returns (io': Lmm)
    requires o1.ilong && 0 <= n < |opts| && opts[n] == o2
    requires Checked(o1, opts, n, io)
    ensures Checked(o1, opts, n + 1, io')
  {
    io' := io;
    ClashStep(o1, opts, n, false);
    ClashStep(o1, opts, n, true);
    if (!o2.ishort && !o2.ilong) || !((o1.ipos && o2.ipos) || (o1.ineg && o2.ineg)) || o1.id == o2.id {
      ThresholdStep(o1, opts, n, false, io.pos, io.pos);
      ThresholdStep(o1, opts, n, true, io.neg, io.neg);
      return;
    }
    if o2.ishort && !o1.iprefmatch && o1.name != [] && o1.name[0] == o2.short {
      io' := io'.(posShort := io.posShort || (o1.ipos && o2.ipos), negShort := io.negShort || (o1.ineg && o2.ineg));
    }
    var pos := UpdateLmm(o1, o2, o2.ilong && o1.ipos && o2.ipos, io.pos);
    var neg := UpdateLmm(o1, o2, o2.ilong && o1.ineg && o2.ineg, io.neg);
    io' := io'.(pos := pos, neg := neg);
    ThresholdStep(o1, opts, n, false, io.pos, pos);
    ThresholdStep(o1, opts, n, true, io.neg, neg);
  }

  /** The option-check loop: every option against every option. */
  method CheckOptions(opts: seq<Opt>) returns (io: seq<Lmm>)
    ensures |io| == |opts|
    ensures forall i :: 0 <= i < |opts| && opts[i].ilong ==> Checked(opts[i], opts, |opts|, io[i])
  {
    io := [];
    for i := 0 to |opts|
      invariant |io| == i
      invariant forall k :: 0 <= k < i && opts[k].ilong ==> Checked(opts[k], opts, |opts|, io[k])
    {
      var x := Lmm(1, 1, false, false);
      if opts[i].ilong {
        for j := 0 to |opts|
          invariant Checked(opts[i], opts, j, x)
        {
          x := CompareOptions(opts[i], x, opts[j], opts, j);
        }
      }
      io := io + [x];
    }
  }

  // ---------------------------------------------------------------- matching an argument

  /** The argument up to its first '='. */
  function Text(arg: Str): (t: Str)
    ensures t <= arg && EQUALS !in t
    ensures |t| < |arg| ==> arg[|t|] == EQUALS
  {
    if arg == [] || arg[0] == EQUALS then [] else [arg[0]] + Text(arg[1..])
  }

  /** How far the comparison gets in `ref` and in `arg`, optionally passing over single dashes of `ref`. */
  function Scan(ref: Str, arg: Str, fewer: bool): (r: (nat, nat))
    ensures r.0 <= |ref| && r.1 <= |arg|
  {
    if ref != [] && arg != [] && arg[0] != EQUALS && ref[0] == arg[0] then
      var (i, j) := Scan(ref[1..], arg[1..], fewer); (i + 1, j + 1)
    else if fewer && |ref| >= 2 && ref[0] == DASH && arg != [] && ref[1] == arg[0] then
      var (i, j) := Scan(ref[1..], arg, fewer); (i + 1, j)
    else (0, 0)
  }

  function Verdict(ref: Str, arg: Str, minMatch: nat, fewer: bool): int {
    var (i, j) := Scan(ref, arg, fewer);
    if j < |arg| && arg[j] != EQUALS then 0 else if i < minMatch then -1 else j
  }

  /** The comparison has got to `i` in `ref` and `j` in `arg` on its way to `goal`. */
  ghost predicate Scanned(ref: Str, arg: Str, fewer: bool, i: int, j: int, goal: (nat, nat)) {
    && 0 <= i <= |ref| && 0 <= j <= |arg|
    && goal == (i + Scan(ref[i..], arg[j..], fewer).0, j + Scan(ref[i..], arg[j..], fewer).1)
  }

  lemma ScannedMatch(ref: Str, arg: Str, fewer: bool, i: int, j: int, goal: (nat, nat))
    requires Scanned(ref, arg, fewer, i, j, goal)
    requires i < |ref| && j < |arg| && arg[j] != EQUALS && ref[i] == arg[j]
    ensures Scanned(ref, arg, fewer, i + 1, j + 1, goal)
  {
    assert ref[i..][1..] == ref[i + 1..] && arg[j..][1..] == arg[j + 1..];
  }

  lemma ScannedDash(ref: Str, arg: Str, i: int, j: int, goal: (nat, nat))
    requires Scanned(ref, arg, true, i, j, goal)
    requires i + 1 < |ref| && ref[i] == DASH && j < |arg| && ref[i + 1] == arg[j]
    requires arg[j] == EQUALS || ref[i] != arg[j]
    ensures Scanned(ref, arg, true, i + 1, j, goal)
  {
    assert ref[i..][1..] == ref[i + 1..] && arg[j..][0] == arg[j] && ref[i..][1] == ref[i + 1];
  }

  lemma ScannedEnd(ref: Str, arg: Str, fewer: bool, i: int, j: int, goal: (nat, nat))
    requires Scanned(ref, arg, fewer, i, j, goal)
    requires !(i < |ref| && j < |arg| && arg[j] != EQUALS && ref[i] == arg[j])
    requires !(fewer && i + 1 < |ref| && ref[i] == DASH && j < |arg| && ref[i + 1] == arg[j])
    ensures goal == (i, j)
  {
    assert i < |ref| ==> ref[i..][0] == ref[i];
    assert j < |arg| ==> arg[j..][0] == arg[j];
    assert i + 1 < |ref| ==> ref[i..][1] == ref[i + 1];
  }

  /** `argcmp` */
  method Argcmp(ref: Str, arg: Str, minMatch: nat, fewer: bool) returns (r: int)
    requires minMatch > 0
    ensures r == Verdict(ref, arg, minMatch, fewer)
  {
    var i, j := 0, 0;
    ghost var goal := Scan(ref, arg, fewer);
    assert ref[0..] == ref && arg[0..] == arg;
    while true
      invariant Scanned(ref, arg, fewer, i, j, goal)
      decreases |ref| - i
    {
      i, j := MatchRun(ref, arg, i, j, fewer, goal);
      if fewer && i + 1 < |ref| && ref[i] == DASH && j < |arg| && ref[i + 1] == arg[j] {
        ScannedDash(ref, arg, i, j, goal);
        i := i + 1;
      } else {
        ScannedEnd(ref, arg, fewer, i, j, goal);
        break;
      }
    }
    r := if j < |arg| && arg[j] != EQUALS then 0 else if i < minMatch then -1 else j;
  }

  /** The inner loop: pass equal characters. */
  method MatchRun(ref: Str, arg: Str, i0: int, j0: int, ghost fewer: bool, ghost goal: (nat, nat))
    returns (i: int, j: int)
    requires Scanned(ref, arg, fewer, i0, j0, goal)
    ensures Scanned(ref, arg, fewer, i, j, goal) && i0 <= i
    ensures !(i < |ref| && j < |arg| && arg[j] != EQUALS && ref[i] == arg[j])
  {
    i, j := i0, j0;
    while i < |ref| && j < |arg| && arg[j] != EQUALS && ref[i] == arg[j]
      invariant Scanned(ref, arg, fewer, i, j, goal) && i0 <= i
    {
      ScannedMatch(ref, arg, fewer, i, j, goal);
      i, j := i + 1, j + 1;
    }
  }

  lemma {:induction false} ScanExact(ref: Str, arg: Str)
    ensures Scan(ref, arg, false).0 == Scan(ref, arg, false).1 <= |Text(arg)|
    ensures Scan(ref, arg, false).1 == |Text(arg)| <==> Text(arg) <= ref
  {
    if ref != [] && arg != [] && arg[0] != EQUALS && ref[0] == arg[0] {
      ScanExact(ref[1..], arg[1..]);
      assert Text(arg)[1..] == Text(arg[1..]);
      assert Text(arg) <= ref <==> Text(arg[1..]) <= ref[1..];
    }
  }

  /** Without dash skipping, the verdict is whether the text starts the name, and whether there is enough of it. */
  lemma VerdictExact(ref: Str, arg: Str, minMatch: nat)
    ensures var t := Text(arg);
            Verdict(ref, arg, minMatch, false) == if !(t <= ref) then 0 else if |t| < minMatch then -1 else |t|
  {
    ScanExact(ref, arg);
    var t, j := Text(arg), Scan(ref, arg, false).1;
    if j < |t| {
      assert arg[j] == t[j] && t[j] in t;
    }
  }

  // ---------------------------------------------------------------- selecting an option

  predicate Eligible(o: Opt, negated: bool) {
    o.ilong && (if negated then o.ineg else o.ipos)
  }

  /** The length an argument must match before option `i` is selected. */
  function Needed(io: Lmm, negated: bool, couldBeShort: bool): nat {
    var lmm := if negated then io.neg else io.pos;
    if couldBeShort && (if negated then io.negShort else io.posShort) && lmm <= 1 then 2 else lmm
  }

  /** The text selects the option: it abbreviates its name, and nothing else it could be taken for. */
  ghost predicate Selects(t: Str, opts: seq<Opt>, i: int, negated: bool, couldBeShort: bool) {
    && 0 <= i < |opts| && Eligible(opts[i], negated)
    && t != [] && t <= opts[i].name
    && (forall j :: 0 <= j < |opts| ==> Tells(t, opts[i], opts[j], negated))
    && (couldBeShort && AnyShortClash(opts[i], opts, |opts|, negated) ==> |t| >= 2)
  }

  /** The text abbreviates an eligible option's name without selecting it. */
  ghost predicate Ambiguous(t: Str, opts: seq<Opt>, i: int, negated: bool, couldBeShort: bool) {
    && 0 <= i < |opts| && Eligible(opts[i], negated) && t <= opts[i].name
    && !Selects(t, opts, i, negated, couldBeShort)
  }

  lemma VerdictMeaning(arg: Str, opts: seq<Opt>, i: int, io: Lmm, negated: bool, couldBeShort: bool)
    requires 0 <= i < |opts| && Eligible(opts[i], negated) && Checked(opts[i], opts, |opts|, io)
    requires Needed(io, negated, couldBeShort) > 0
    ensures var r := Verdict(opts[i].name, arg, Needed(io, negated, couldBeShort), false);
            && (r > 0 <==> Selects(Text(arg), opts, i, negated, couldBeShort))
            && (r < 0 <==> Ambiguous(Text(arg), opts, i, negated, couldBeShort))
  {
    VerdictExact(opts[i].name, arg, Needed(io, negated, couldBeShort));
  }

  /** None of the first `n` options is selected. */
  ghost predicate NoneSelected(t: Str, opts: seq<Opt>, n: int, negated: bool, couldBeShort: bool) {
    forall i :: 0 <= i < n ==> !Selects(t, opts, i, negated, couldBeShort)
  }

  /** None of the first `n` options falls short. */
  ghost predicate NoneAmbiguous(t: Str, opts: seq<Opt>, n: int, negated: bool, couldBeShort: bool) {
    forall i :: 0 <= i < n ==> !Ambiguous(t, opts, i, negated, couldBeShort)
  }

  ghost predicate AllChecked(opts: seq<Opt>, io: seq<Lmm>) {
    |io| == |opts| && forall i :: 0 <= i < |opts| && opts[i].ilong ==> Checked(opts[i], opts, |opts|, io[i])
  }

  /** What `argcmp` asserts: some character is needed of every option that is compared. */
  ghost predicate Usable(opts: seq<Opt>, io: seq<Lmm>, negated: bool) {
    && |io| == |opts|
    && forall i :: 0 <= i < |opts| && Eligible(opts[i], negated) ==> (if negated then io[i].neg else io[i].pos) > 0
  }

  /** It fails exactly if two options on the same side are both called just "no-". */
  lemma UsableIff(opts: seq<Opt>, io: seq<Lmm>, negated: bool)
    requires AllChecked(opts, io)
    ensures Usable(opts, io, negated) <==>
              forall i :: 0 <= i < |opts| && Eligible(opts[i], negated) && opts[i].name == [] ==>
                !EmptyRival(opts[i], opts, |opts|, negated)
  {
    forall i | 0 <= i < |opts| && Eligible(opts[i], negated)
      ensures (if negated then io[i].neg else io[i].pos) > 0 <==>
                (opts[i].name == [] ==> !EmptyRival(opts[i], opts, |opts|, negated))
    {
      assert Checked(opts[i], opts, |opts|, io[i]);
    }
  }

  /** The effect of trying one option. */
  lemma TryOption(arg: Str, opts: seq<Opt>, io: seq<Lmm>, i: int, negated: bool, couldBeShort: bool)
    requires AllChecked(opts, io) && Usable(opts, io, negated) && 0 <= i < |opts|
    ensures var t := Text(arg);
            var v := Outcome(arg, opts, io, i, negated, couldBeShort, false);
            && (v > 0 <==> Selects(t, opts, i, negated, couldBeShort))
            && (NoneSelected(t, opts, i + 1, negated, couldBeShort) <==>
                 NoneSelected(t, opts, i, negated, couldBeShort) && v <= 0)
            && (NoneAmbiguous(t, opts, i + 1, negated, couldBeShort) <==>
                 NoneAmbiguous(t, opts, i, negated, couldBeShort) && v >= 0)
  {
    OneMoreTried(Text(arg), opts, i, negated, couldBeShort);
    OptionVerdict(arg, opts, io, i, negated, couldBeShort);
  }

  lemma OptionVerdict(arg: Str, opts: seq<Opt>, io: seq<Lmm>, i: int, negated: bool, couldBeShort: bool)
    requires AllChecked(opts, io) && Usable(opts, io, negated) && 0 <= i < |opts|
    ensures var t := Text(arg);
            var v := Outcome(arg, opts, io, i, negated, couldBeShort, false);
            && (v > 0 <==> Selects(t, opts, i, negated, couldBeShort))
            && (v < 0 <==> Ambiguous(t, opts, i, negated, couldBeShort))
  {
    if Eligible(opts[i], negated) {
      VerdictMeaning(arg, opts, i, io[i], negated, couldBeShort);
    }
  }

  lemma OneMoreTried(t: Str, opts: seq<Opt>, i: nat, negated: bool, couldBeShort: bool)
    ensures NoneSelected(t, opts, i + 1, negated, couldBeShort) <==>
              NoneSelected(t, opts, i, negated, couldBeShort) && !Selects(t, opts, i, negated, couldBeShort)
    ensures NoneAmbiguous(t, opts, i + 1, negated, couldBeShort) <==>
              NoneAmbiguous(t, opts, i, negated, couldBeShort) && !Ambiguous(t, opts, i, negated, couldBeShort)
  {}

  function Shown(ambiguous: nat): nat {
    if ambiguous < MAX_AMBIGUOUS_VALUES then ambiguous else MAX_AMBIGUOUS_VALUES
  }

  /** What comparing with option `i` gives; options on the other side are not compared. */
  function Outcome(arg: Str, opts: seq<Opt>, io: seq<Lmm>, i: int, negated: bool, couldBeShort: bool,
                   fewer: bool): (r: int)
    requires 0 <= i < |opts| == |io|
  {
    if Eligible(opts[i], negated) then Verdict(opts[i].name, arg, Needed(io[i], negated, couldBeShort), fewer) else 0
  }

  /** None of the first `n` options is found. */
  ghost predicate NoneFound(arg: Str, opts: seq<Opt>, io: seq<Lmm>, n: int, negated: bool, couldBeShort: bool,
                            fewer: bool) {
    && |opts| == |io|
    && forall i :: 0 <= i < n && i < |opts| ==> Outcome(arg, opts, io, i, negated, couldBeShort, fewer) <= 0
  }

  /** What one pass has learnt from the first `n` options. */
  ghost predicate PassState(t: Str, opts: seq<Opt>, n: int, negated: bool, couldBeShort: bool, fewer: bool,
                            more: bool) {
    !fewer ==>
      && NoneSelected(t, opts, n, negated, couldBeShort)
      && (!more <==> NoneAmbiguous(t, opts, n, negated, couldBeShort))
  }

  /** Compare the argument with one option. */
  method TryOne(arg: Str, opts: seq<Opt>, io: seq<Lmm>, i: int, negated: bool, couldBeShort: bool, fewer: bool,
                ghost more: bool)
    returns (len: int)
    requires AllChecked(opts, io) && Usable(opts, io, negated) && 0 <= i < |opts|
    requires PassState(Text(arg), opts, i, negated, couldBeShort, fewer, more)
    requires NoneFound(arg, opts, io, i, negated, couldBeShort, fewer)
    ensures len == Outcome(arg, opts, io, i, negated, couldBeShort, fewer)
    ensures !fewer && len > 0 ==> Selects(Text(arg), opts, i, negated, couldBeShort)
    ensures len <= 0 ==> PassState(Text(arg), opts, i + 1, negated, couldBeShort, fewer, more || len < 0)
    ensures len <= 0 ==> NoneFound(arg, opts, io, i + 1, negated, couldBeShort, fewer)
  {
    TryOption(arg, opts, io, i, negated, couldBeShort);
    len := 0;
    if Eligible(opts[i], negated) {
      assert Checked(opts[i], opts, |opts|, io[i]);
      len := Argcmp(opts[i].name, arg, Needed(io[i], negated, couldBeShort), fewer);
    }
    OneMoreFound(arg, opts, io, i, negated, couldBeShort, fewer);
  }

  lemma OneMoreFound(arg: Str, opts: seq<Opt>, io: seq<Lmm>, i: int, negated: bool, couldBeShort: bool, fewer: bool)
    requires 0 <= i < |opts| == |io|
    ensures NoneFound(arg, opts, io, i + 1, negated, couldBeShort, fewer) <==>
              && NoneFound(arg, opts, io, i, negated, couldBeShort, fewer)
              && Outcome(arg, opts, io, i, negated, couldBeShort, fewer) <= 0
  {}

  /** One pass over the options: the first selected one, or -1 and the candidates that fell short. */
  method FindPass(arg: Str, opts: seq<Opt>, io: seq<Lmm>, negated: bool, couldBeShort: bool, fewer: bool,
                  ambiguous0: nat, values0: seq<int>)
    returns (r: int, ambiguous: nat, values: seq<int>)
    requires AllChecked(opts, io) && Usable(opts, io, negated) && |values0| == Shown(ambiguous0)
    ensures -1 <= r < |opts| && |values| == Shown(ambiguous) && ambiguous >= ambiguous0
    ensures !fewer && r >= 0 ==>
              && Selects(Text(arg), opts, r, negated, couldBeShort)
              && NoneSelected(Text(arg), opts, r, negated, couldBeShort)
    ensures r < 0 ==> PassState(Text(arg), opts, |opts|, negated, couldBeShort, fewer, ambiguous > ambiguous0)
    ensures r >= 0 ==> Outcome(arg, opts, io, r, negated, couldBeShort, fewer) > 0
    ensures NoneFound(arg, opts, io, if r >= 0 then r else |opts|, negated, couldBeShort, fewer)
  {
    ambiguous, values := ambiguous0, values0;
    for i := 0 to |opts|
      invariant NoneFound(arg, opts, io, i, negated, couldBeShort, fewer)
      invariant |values| == Shown(ambiguous) && ambiguous >= ambiguous0
      invariant PassState(Text(arg), opts, i, negated, couldBeShort, fewer, ambiguous > ambiguous0)
    {
      var len := TryOne(arg, opts, io, i, negated, couldBeShort, fewer, ambiguous > ambiguous0);
      if len > 0 {
        return i, ambiguous, values;
      } else if len < 0 {
        if ambiguous < MAX_AMBIGUOUS_VALUES {
          values := values + [i];
        }
        ambiguous := ambiguous + 1;
      }
    }
    r := -1;
  }

  /**
   `find_prefix_opt`: the first option the argument selects.  Only if it
   selects none and abbreviates none is it compared again with dashes left out.
   */
  method FindPrefixOpt(arg: Str, opts: seq<Opt>, io: seq<Lmm>, negated: bool, couldBeShort: bool,
                       ambiguous0: nat, values0: seq<int>)
    returns (r: int, ambiguous: nat, values: seq<int>, retried: bool)
    requires AllChecked(opts, io) && Usable(opts, io, negated) && |values0| == Shown(ambiguous0)
    ensures -1 <= r < |opts| && |values| == Shown(ambiguous) && ambiguous >= ambiguous0
    ensures !retried && r >= 0 ==>
              && Selects(Text(arg), opts, r, negated, couldBeShort)
              && NoneSelected(Text(arg), opts, r, negated, couldBeShort)
    ensures !retried && r < 0 ==> NoneSelected(Text(arg), opts, |opts|, negated, couldBeShort)
    ensures retried <==> NoneSelected(Text(arg), opts, |opts|, negated, couldBeShort)
                         && NoneAmbiguous(Text(arg), opts, |opts|, negated, couldBeShort)
    ensures r >= 0 ==> Outcome(arg, opts, io, r, negated, couldBeShort, retried) > 0
    ensures NoneFound(arg, opts, io, if r >= 0 then r else |opts|, negated, couldBeShort, retried)
  {
    retried := false;
    r, ambiguous, values := FindPass(arg, opts, io, negated, couldBeShort, false, ambiguous0, values0);
    if r < 0 && ambiguous == ambiguous0 {
      retried := true;
      r, ambiguous, values := FindPass(arg, opts, io, negated, couldBeShort, true, ambiguous, values);
    }
  }

  // ---------------------------------------------------------------- what selection means

  /** Distinct positive options with distinct long names and no preferred-match flag. */
  ghost predicate Plain(opts: seq<Opt>) {
    && (forall i :: 0 <= i < |opts| ==> opts[i].ilong && opts[i].ipos && !opts[i].iprefmatch && opts[i].name != [])
    && (forall i, j :: 0 <= i < j < |opts| ==> opts[i].id != opts[j].id && opts[i].name != opts[j].name)
  }

  /** The option's full name, or a nonempty prefix of its name and of no other's. */
  ghost predicate Abbreviates(t: Str, opts: seq<Opt>, i: int)
    requires 0 <= i < |opts|
  {
    || t == opts[i].name
    || (t != [] && t <= opts[i].name && forall j :: 0 <= j < |opts| && j != i ==> !(t <= opts[j].name))
  }

  /** For plain options: a full name selects its option, and so does a prefix of that name and no other. */
  lemma PlainSelection(t: Str, opts: seq<Opt>, i: int)
    requires Plain(opts) && 0 <= i < |opts|
    ensures Selects(t, opts, i, false, false) <==> Abbreviates(t, opts, i)
  {
    forall j | 0 <= j < |opts| && j != i ensures opts[i].id != opts[j].id {
      if j < i {
        assert opts[j].id != opts[i].id;
      }
    }
    if t != [] && t <= opts[i].name && t != opts[i].name && Selects(t, opts, i, false, false) {
      forall j | 0 <= j < |opts| && j != i ensures !(t <= opts[j].name) {
        assert Tells(t, opts[i], opts[j], false);
      }
    }
  }

  /** At most one plain option is selected, so the order of the options does not matter. */
  lemma PlainSelectionUnique(t: Str, opts: seq<Opt>, i: int, j: int)
    requires Plain(opts) && Selects(t, opts, i, false, false) && Selects(t, opts, j, false, false)
    ensures i == j
  {
    PlainSelection(t, opts, i);
    PlainSelection(t, opts, j);
  }

  /** Thresholds and first pass together: option `i` is found exactly if the text before any '=' abbreviates it. */
  method FindPlain(arg: Str, opts: seq<Opt>) returns (r: int, retried: bool)
    requires Plain(opts)
    ensures -1 <= r < |opts|
    ensures forall i :: 0 <= i < |opts| ==> (!retried && r == i <==> Abbreviates(Text(arg), opts, i))
  {
    var io := CheckOptions(opts);
    var ambiguous, values;
    r, ambiguous, values, retried := FindPrefixOpt(arg, opts, io, false, false, 0, []);
    forall i | 0 <= i < |opts|
      ensures !retried && r == i <==> Abbreviates(Text(arg), opts, i)
    {
      PlainSelection(Text(arg), opts, i);
      if !retried && r >= 0 && Selects(Text(arg), opts, i, false, false) {
        PlainSelectionUnique(Text(arg), opts, i, r);
      }
    }
  }

  /** What matches exactly matches to the same length with dash skipping on: the caller's own assertion. */
  lemma VerdictWithDashes(ref: Str, arg: Str, minMatch: nat)
    requires Verdict(ref, arg, minMatch, false) > 0
    ensures Verdict(ref, arg, minMatch, true) == Verdict(ref, arg, minMatch, false)
  {
    VerdictExact(ref, arg, minMatch);
    ScanExact(ref, arg);
    ScanWithDashes(ref, arg);
  }

  lemma {:induction false} ScanWithDashes(ref: Str, arg: Str)
    requires Text(arg) <= ref
    ensures Scan(ref, arg, true).1 == |Text(arg)| <= Scan(ref, arg, true).0
  {
    if ref != [] && arg != [] && arg[0] != EQUALS && ref[0] == arg[0] {
      assert Text(arg)[1..] == Text(arg[1..]);
      ScanWithDashes(ref[1..], arg[1..]);
    }
  }

  /** `t` is `s` with at most the last dash of each run of dashes left out. */
  ghost predicate DashesDropped(s: Str, t: Str) {
    if s == [] then t == []
    else
      || (t != [] && s[0] == t[0] && DashesDropped(s[1..], t[1..]))
      || (s[0] == DASH && (|s| > 1 ==> s[1] != DASH) && DashesDropped(s[1..], t))
  }

  /** The retry accepts only arguments that spell the start of the name with dashes left out. */
  lemma {:induction false} RetryIsSound(ref: Str, arg: Str)
    ensures var (i, j) := Scan(ref, arg, true); DashesDropped(ref[..i], arg[..j])
    decreases |ref|
  {
    var (i, j) := Scan(ref, arg, true);
    if ref != [] && arg != [] && arg[0] != EQUALS && ref[0] == arg[0] {
      RetryIsSound(ref[1..], arg[1..]);
      assert ref[..i][1..] == ref[1..][..i - 1] && arg[..j][1..] == arg[1..][..j - 1];
    } else if |ref| >= 2 && ref[0] == DASH && arg != [] && ref[1] == arg[0] {
      RetryIsSound(ref[1..], arg);
      assert ref[1] != DASH;
      assert ref[..i][1..] == ref[1..][..i - 1];
    }
  }

  // ---------------------------------------------------------------- the retry

  /** The text spells the start of the name, single dashes left out. */
  ghost predicate SpellsStart(ref: Str, t: Str) {
    exists k :: 0 <= k <= |ref| && DashesDropped(ref[..k], t)
  }

  /** The text is read to its end whenever some choice of dashes to leave out would do. */
  lemma {:induction false} ScanCompletes(ref: Str, arg: Str, k: nat)
    requires k <= |ref| && DashesDropped(ref[..k], Text(arg))
    ensures Scan(ref, arg, true).1 == |Text(arg)|
    decreases |ref|
  {
    var t, p := Text(arg), ref[..k];
    if t != [] {
      assert p != [] && p[0] == ref[0] && p[1..] == ref[1..][..k - 1];
      assert t == [arg[0]] + Text(arg[1..]) && t[1..] == Text(arg[1..]);
      if ref[0] == arg[0] {
        MatchedHere(p, t);
        ScanCompletes(ref[1..], arg[1..], k - 1);
      } else {
        DroppedNext(p, t);
        assert p[1] == ref[1];
        ScanCompletes(ref[1..], arg, k - 1);
      }
    }
  }

  /** A dash that is there in both is not left out. */
  lemma MatchedHere(p: Str, t: Str)
    requires p != [] && t != [] && p[0] == t[0] && DashesDropped(p, t)
    ensures DashesDropped(p[1..], t[1..])
  {
    FirstKept(p[1..], t);
  }

  lemma FirstKept(p: Str, t: Str)
    ensures p != [] && p[0] != DASH && DashesDropped(p, t) ==> t != [] && t[0] == p[0]
  {}

  /** After a dash that is left out comes the next character of the text. */
  lemma DroppedNext(p: Str, t: Str)
    requires p != [] && t != [] && p[0] != t[0] && DashesDropped(p, t)
    ensures p[0] == DASH && |p| > 1 && p[1] == t[0] && DashesDropped(p[1..], t)
  {
    assert DashesDropped(p[1..], t);
  }

  /** The retry matches exactly the texts that spell the start of the name, single dashes left out. */
  lemma RetryMatchesIff(ref: Str, arg: Str, minMatch: nat)
    requires minMatch > 0 && Text(arg) != []
    ensures Verdict(ref, arg, minMatch, true) != 0 <==> SpellsStart(ref, Text(arg))
  {
    var t := Text(arg);
    var (i, j) := Scan(ref, arg, true);
    RetryIsSound(ref, arg);
    ScanStopsInText(ref, arg, true);
    if SpellsStart(ref, t) {
      var k :| 0 <= k <= |ref| && DashesDropped(ref[..k], t);
      ScanCompletes(ref, arg, k);
    }
    if j == |t| {
      assert arg[..j] == t;
    }
  }

  /** The comparison never passes the '='. */
  lemma {:induction false} ScanStopsInText(ref: Str, arg: Str, fewer: bool)
    ensures Scan(ref, arg, fewer).1 <= |Text(arg)|
    decreases |ref|
  {
    if ref != [] && arg != [] && arg[0] != EQUALS && ref[0] == arg[0] {
      ScanStopsInText(ref[1..], arg[1..], fewer);
    } else if fewer && |ref| >= 2 && ref[0] == DASH && arg != [] && ref[1] == arg[0] {
      ScanStopsInText(ref[1..], arg, fewer);
    }
  }

  /** So the option the retry returns is the only one that matches exactly if the text spells the start of no
      other's name. */
  lemma RetryOnlyMatch(arg: Str, opts: seq<Opt>, io: seq<Lmm>, r: int, negated: bool, couldBeShort: bool)
    requires AllChecked(opts, io) && Usable(opts, io, negated) && 0 <= r < |opts| && Text(arg) != []
    ensures (forall i :: 0 <= i < |opts| && i != r ==> Outcome(arg, opts, io, i, negated, couldBeShort, true) == 0) <==>
            (forall i :: 0 <= i < |opts| && i != r && Eligible(opts[i], negated) ==>
                !SpellsStart(opts[i].name, Text(arg)))
  {
    forall i | 0 <= i < |opts| && Eligible(opts[i], negated)
      ensures Outcome(arg, opts, io, i, negated, couldBeShort, true) != 0 <==> SpellsStart(opts[i].name, Text(arg))
    {
      RetryMatchesIff(opts[i].name, arg, Needed(io[i], negated, couldBeShort));
    }
  }

  /** The retry does not run on an empty text: any eligible option is ambiguous to it. */
  lemma RetryHasText(arg: Str, opts: seq<Opt>, io: seq<Lmm>, i: int, negated: bool, couldBeShort: bool)
    requires AllChecked(opts, io) && Usable(opts, io, negated) && 0 <= i < |opts| && Eligible(opts[i], negated)
    requires NoneSelected(Text(arg), opts, |opts|, negated, couldBeShort)
    requires NoneAmbiguous(Text(arg), opts, |opts|, negated, couldBeShort)
    ensures Text(arg) != []
  {
    VerdictMeaning(arg, opts, i, io[i], negated, couldBeShort);
  }

  const EARLY_DASH: Opt := Opt(1, 0, [97, DASH, 98, 99], true, false, true, false, false)
  const LATE_DASH: Opt := Opt(2, 0, [97, 98, DASH, 99], true, false, true, false, false)
  const UNDASHED: Str := [97, 98, 99]

  /** Options "a-bc" and "ab-c" both match "abc", and only on the retry: the first in the list is returned. */
  method RetryTakesFirst(swapped: bool) returns (opts: seq<Opt>, r: int, retried: bool)
    ensures opts == if swapped then [LATE_DASH, EARLY_DASH] else [EARLY_DASH, LATE_DASH]
    ensures retried && r == 0
    ensures SpellsStart(opts[0].name, Text(UNDASHED)) && SpellsStart(opts[1].name, Text(UNDASHED))
  {
    opts := if swapped then [LATE_DASH, EARLY_DASH] else [EARLY_DASH, LATE_DASH];
    r, retried := FindUndashed(opts);
    assert opts[0] == EARLY_DASH || opts[0] == LATE_DASH;
    assert opts[1] == EARLY_DASH || opts[1] == LATE_DASH;
    BothMatch(opts[0], 1);
    BothMatch(opts[1], 1);
  }

  ghost predicate DashPair(opts: seq<Opt>) {
    |opts| == 2 && forall i :: 0 <= i < |opts| ==> opts[i] == EARLY_DASH || opts[i] == LATE_DASH
  }

  method FindUndashed(opts: seq<Opt>) returns (r: int, retried: bool)
    requires DashPair(opts)
    ensures retried && r == 0
  {
    var io := CheckOptions(opts);
    PairUsable(opts, io);
    PairMisses(opts);
    PairMatches(opts, io);
    var ambiguous, values;
    r, ambiguous, values, retried := FindPrefixOpt(UNDASHED, opts, io, false, false, 0, []);
    FirstOfPair(opts, io, r);
  }

  lemma PairUsable(opts: seq<Opt>, io: seq<Lmm>)
    requires DashPair(opts) && AllChecked(opts, io)
    ensures Usable(opts, io, false)
  {
    UsableIff(opts, io, false);
  }

  lemma PairMisses(opts: seq<Opt>)
    requires DashPair(opts)
    ensures NoneSelected(Text(UNDASHED), opts, |opts|, false, false)
    ensures NoneAmbiguous(Text(UNDASHED), opts, |opts|, false, false)
  {
    UndashedText();
    forall i | 0 <= i < |opts| ensures !(UNDASHED <= opts[i].name) {
      BothMatch(opts[i], 1);
    }
  }

  lemma PairMatches(opts: seq<Opt>, io: seq<Lmm>)
    requires DashPair(opts) && AllChecked(opts, io)
    ensures Outcome(UNDASHED, opts, io, 0, false, false, true) == 3
  {
    assert Checked(opts[0], opts, |opts|, io[0]);
    BothMatch(opts[0], Needed(io[0], false, false));
  }

  lemma FirstOfPair(opts: seq<Opt>, io: seq<Lmm>, r: int)
    requires |opts| == 2 == |io| && -1 <= r < 2 && Outcome(UNDASHED, opts, io, 0, false, false, true) == 3
    requires NoneFound(UNDASHED, opts, io, if r >= 0 then r else 2, false, false, true)
    ensures r == 0
  {}

  lemma UndashedText()
    ensures Text(UNDASHED) == UNDASHED
  {
    assert UNDASHED[1..] == [98, 99] && UNDASHED[1..][1..] == [99] && UNDASHED[1..][1..][1..] == [];
    assert Text([99]) == [99] && Text([98, 99]) == [98, 99];
  }

  lemma BothMatch(o: Opt, needed: nat)
    requires (o == EARLY_DASH || o == LATE_DASH) && 1 <= needed <= |o.name|
    ensures Verdict(o.name, UNDASHED, needed, true) == 3 && SpellsStart(o.name, Text(UNDASHED)) && !(UNDASHED <= o.name)
  {
    var a: Str, b: Str, arg := EARLY_DASH.name, LATE_DASH.name, UNDASHED;
    assert a[1..] == [DASH, 98, 99] && a[1..][1..] == [98, 99] && a[1..][1..][1..] == [99] &&
           a[1..][1..][1..][1..] == [];
    assert b[1..] == [98, DASH, 99] && b[1..][1..] == [DASH, 99] && b[1..][1..][1..] == [99] &&
           b[1..][1..][1..][1..] == [];
    assert arg[1..] == [98, 99] && arg[1..][1..] == [99] && arg[1..][1..][1..] == [];
    assert Scan([99], [99], true) == (1, 1) && Scan([98, 99], [98, 99], true) == (2, 2);
    assert Scan([DASH, 98, 99], [98, 99], true) == (3, 2) && Scan([DASH, 99], [99], true) == (2, 1);
    assert Scan([98, DASH, 99], [98, 99], true) == (3, 2);
    assert a[1] != arg[1] && b[2] != arg[2];
    UndashedText();
    RetryMatchesIff(o.name, arg, needed);
  }

  /** Two options called just "no-" have threshold zero, against the comparison's own assertion. */
  method NoThreshold() returns (opts: seq<Opt>, io: seq<Lmm>)
    ensures opts == [Opt(1, 0, [], true, false, false, true, false), Opt(2, 0, [], true, false, false, true, false)]
    ensures AllChecked(opts, io) && !Usable(opts, io, true) && io[0].neg == 0 == io[1].neg
  {
    opts := [Opt(1, 0, [], true, false, false, true, false), Opt(2, 0, [], true, false, false, true, false)];
    io := CheckOptions(opts);
    assert Rival(opts[0], opts[1], true) && Rival(opts[1], opts[0], true);
    assert EmptyRival(opts[0], opts, 2, true) && EmptyRival(opts[1], opts, 2, true);
    assert Checked(opts[0], opts, 2, io[0]) && Checked(opts[1], opts, 2, io[1]);
  }
}
