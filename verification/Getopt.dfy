/**
  The option scanner in its permuting mode: a state machine that moves
  non-options behind the options while it scans, against a scan of the
  original vector that moves nothing.
 */
module Getopt {
  import opened Common
  import opened Permute

  /** A NUL-free argument. */
  type Arg = seq<char>

  datatype Kind = Unknown | Plain | Required | Optional

  /** What one call reports: the returned character, the option's argument and, on errors, the offending letter. */
  datatype Event = Event(ret: char, optarg: Option<Arg>, optopt: Option<char>)

  /** Position of a character, or the length if absent. */
  function Strchr(s: Arg, c: char): (i: nat)
    ensures i <= |s| && (i < |s| ==> s[i] == c)
    ensures forall j {:trigger s[j]} :: 0 <= j < i ==> s[j] != c
  {
    if s == [] || s[0] == c then 0 else 1 + Strchr(s[1..], c)
  }

  function LetterKind(options: Arg, c: char): Kind {
    var i := Strchr(options, c);
    if c == ':' || i == |options| then Unknown
    else if i + 1 == |options| || options[i + 1] != ':' then Plain
    else if i + 2 == |options| || options[i + 2] != ':' then Required
    else Optional
  }

  /** The permuting mode, without the long-option form of 'W'. */
  predicate Permuting(options: Arg) {
    && (options != [] ==> options[0] != '+' && options[0] != '-')
    && (var i := Strchr(options, 'W'); i + 1 < |options| ==> options[i + 1] != ';')
  }

  function BadArg(options: Arg): char {
    if options != [] && options[0] == ':' then ':' else '?'
  }

  predicate NonOption(a: Arg) {
    a == [] || a[0] != '-' || |a| == 1
  }

  predicate TwoDashes(a: Arg) {
    |a| > 1 && a[0] == '-' && a[1] == '-'
  }

  /** What scanning a vector comes to. */
  datatype Outcome = Outcome(events: seq<Event>, opts: seq<Arg>, nonopts: seq<Arg>, tail: seq<Arg>)

  /** One option letter: its event, and how many arguments it completes. */
  function Letter(argv: seq<Arg>, options: Arg, i: nat, place: Arg): (r: (Event, nat))
    requires i < |argv| && place != []
    ensures i + r.1 <= |argv| && (place[1..] == [] ==> r.1 > 0)
  {
    var c, more := place[0], place[1..];
    var last := if more == [] then 1 else 0;
    match LetterKind(options, c)
    case Unknown => (Event('?', None, Some(c)), last)
    case Plain => (Event(c, None, None), last)
    case Required =>
      if more != [] then (Event(c, Some(more), None), 1)
      else if i + 1 < |argv| then (Event(c, Some(argv[i + 1]), None), 2)
      else (Event(BadArg(options), None, Some(c)), 1)
    case Optional => (Event(c, if more != [] then Some(more) else None, None), 1)
  }

  function Prepend(events: seq<Event>, opts: seq<Arg>, nonopts: seq<Arg>, o: Outcome): Outcome {
    Outcome(events + o.events, opts + o.opts, nonopts + o.nonopts, o.tail)
  }

  /** Scanning a vector from argument i on, where place is the rest of an option cluster. */
  function Scan(argv: seq<Arg>, options: Arg, i: nat, place: Arg): Outcome
    requires i <= |argv| && (place != [] ==> i < |argv|)
    decreases |argv| - i, if place == [] then 1 else 0, |place|
  {
    if place != [] then
      var (e, n) := Letter(argv, options, i, place);
      Prepend([e], argv[i..i + n], [], Scan(argv, options, i + n, if n > 0 then [] else place[1..]))
    else if i == |argv| then Outcome([], [], [], [])
    else if NonOption(argv[i]) then Prepend([], [], [argv[i]], Scan(argv, options, i + 1, []))
    else if TwoDashes(argv[i]) then Outcome([], [argv[i]], [], argv[i + 1..])
    else Scan(argv, options, i, argv[i][1..])
  }

  /** Every argument ends up in exactly one of the three groups, which keep their order. */
  lemma {:induction false} ScanCovers(argv: seq<Arg>, options: Arg, i: nat, place: Arg)
    requires i <= |argv| && (place != [] ==> i < |argv|)
    ensures Members(Scan(argv, options, i, place)) == multiset(argv[i..])
    decreases |argv| - i, if place == [] then 1 else 0, |place|
  {
    hide Letter, Prepend, Scan, Members, NonOption;
    if i == |argv| {
      NothingLeft(argv, options);
    } else {
      ScanUnfolds(argv, options, i, place);
      if place != [] {
        var (e, n) := Letter(argv, options, i, place);
        var next := if n > 0 then [] else place[1..];
        ScanCovers(argv, options, i + n, next);
        PrependCovers(argv, i, n, [e], true, Scan(argv, options, i + n, next));
      } else if NonOption(argv[i]) {
        ScanCovers(argv, options, i + 1, []);
        PrependCovers(argv, i, 1, [], false, Scan(argv, options, i + 1, []));
      } else if TwoDashes(argv[i]) {
        DashesCover(argv, i);
      } else {
        ScanCovers(argv, options, i, argv[i][1..]);
      }
    }
  }

  lemma NothingLeft(argv: seq<Arg>, options: Arg)
    ensures Members(Scan(argv, options, |argv|, [])) == multiset(argv[|argv|..])
  {
  }

  lemma DashesCover(argv: seq<Arg>, i: nat)
    requires i < |argv|
    ensures Members(Outcome([], [argv[i]], [], argv[i + 1..])) == multiset(argv[i..])
  {
    assert argv[i..] == [argv[i]] + argv[i + 1..];
  }

  lemma ScanUnfolds(argv: seq<Arg>, options: Arg, i: nat, place: Arg)
    requires i < |argv|
    ensures place != [] ==> (var (e, n) := Letter(argv, options, i, place);
              Scan(argv, options, i, place) ==
                Prepend([e], argv[i..i + n], [], Scan(argv, options, i + n, if n > 0 then [] else place[1..])))
    ensures place == [] && NonOption(argv[i]) ==>
              Scan(argv, options, i, place) == Prepend([], [], [argv[i]], Scan(argv, options, i + 1, []))
    ensures place == [] && !NonOption(argv[i]) ==>
              |argv[i]| > 1 &&
              Scan(argv, options, i, place) ==
                if TwoDashes(argv[i]) then Outcome([], [argv[i]], [], argv[i + 1..])
                else Scan(argv, options, i, argv[i][1..])
  {
    hide Letter, Prepend;
  }

  ghost function Members(o: Outcome): multiset<Arg> {
    multiset(o.opts) + multiset(o.nonopts) + multiset(o.tail)
  }

  /** Arguments joining one of the groups. */
  lemma PrependCovers(argv: seq<Arg>, i: nat, n: nat, events: seq<Event>, option: bool, o: Outcome)
    requires i + n <= |argv| && Members(o) == multiset(argv[i + n..])
    ensures Members(Prepend(events, if option then argv[i..i + n] else [], if option then [] else argv[i..i + n], o)) ==
            multiset(argv[i..])
    ensures n == 1 ==> argv[i..i + n] == [argv[i]]
  {
    assert argv[i..] == argv[i..i + n] + argv[i + n..];
    assert [] + o.opts == o.opts && [] + o.nonopts == o.nonopts;
  }

  // ----- what an option string says -----

  predicate Begins(s: Arg, c: char) {
    s != [] && s[0] == c
  }

  /** Its first place in the option string is followed by exactly one colon. */
  ghost predicate TakesArgument(options: Arg, c: char) {
    c != ':' && exists a: Arg, b: Arg :: Listed(options, a, c, ":", b) && !Begins(b, ':')
  }

  /** Its first place is followed by two colons. */
  ghost predicate MayTakeArgument(options: Arg, c: char) {
    c != ':' && exists a: Arg, b: Arg :: Listed(options, a, c, "::", b)
  }

  /** Its first place is followed by none. */
  ghost predicate TakesNone(options: Arg, c: char) {
    c != ':' && exists a: Arg, b: Arg :: Listed(options, a, c, "", b) && !Begins(b, ':')
  }

  /** The first place of c in the option string, and what follows it. */
  ghost predicate Listed(options: Arg, a: Arg, c: char, colons: string, b: Arg) {
    options == a + [c] + colons + b && c !in a
  }

  /** What a letter of a cluster reports, and how many arguments it completes. */
  ghost predicate Means(argv: seq<Arg>, options: Arg, i: nat, place: Arg, e: Event, n: nat)
    requires i < |argv| && place != []
  {
    var c, more := place[0], place[1..];
    var last := if more == [] then 1 else 0;
    && (c == ':' || c !in options ==> e == Event('?', None, Some(c)) && n == last)
    && (TakesNone(options, c) ==> e == Event(c, None, None) && n == last)
    && (TakesArgument(options, c) && more != [] ==> e == Event(c, Some(more), None) && n == 1)
    && (TakesArgument(options, c) && more == [] && i + 1 < |argv| ==>
      e == Event(c, Some(argv[i + 1]), None) && n == 2)
    && (TakesArgument(options, c) && more == [] && i + 1 == |argv| ==>
      e == Event(if Begins(options, ':') then ':' else '?', None, Some(c)) && n == 1)
    && (MayTakeArgument(options, c) && more != [] ==> e == Event(c, Some(more), None) && n == 1)
    && (MayTakeArgument(options, c) && more == [] ==> e == Event(c, None, None) && n == 1)
  }

  /** Every letter is exactly one of the four. */
  lemma OneKind(options: Arg, c: char)
    ensures LetterKind(options, c) == Unknown <==> c == ':' || c !in options
    ensures LetterKind(options, c) == Plain <==> TakesNone(options, c)
    ensures LetterKind(options, c) == Required <==> TakesArgument(options, c)
    ensures LetterKind(options, c) == Optional <==> MayTakeArgument(options, c)
  {
    var i := Strchr(options, c);
    if i < |options| && c != ':' {
      AtFirstPlace(options, c);
      hide Listed;
      forall a': Arg, colons: string, b: Arg | Listed(options, a', c, colons, b)
        ensures |a'| == i && colons + b == options[i + 1..]
      {
        ListedAt(options, a', c, colons, b);
      }
    }
  }

  lemma AtFirstPlace(options: Arg, c: char)
    requires Strchr(options, c) < |options| && c != ':'
    ensures LetterKind(options, c) == Plain ==> TakesNone(options, c)
    ensures LetterKind(options, c) == Required ==> TakesArgument(options, c)
    ensures LetterKind(options, c) == Optional ==> MayTakeArgument(options, c)
  {
    hide Listed;
    var i := Strchr(options, c);
    if LetterKind(options, c) == Plain {
      ListedHere(options, c, i, "");
    } else if LetterKind(options, c) == Required {
      ListedHere(options, c, i, ":");
    } else {
      ListedHere(options, c, i, "::");
    }
  }

  lemma ListedHere(options: Arg, c: char, i: nat, colons: string)
    requires i + |colons| < |options| && i == Strchr(options, c)
    requires forall j {:trigger colons[j]} :: 0 <= j < |colons| ==> options[i + 1 + j] == colons[j]
    ensures Listed(options, options[..i], c, colons, options[i + 1 + |colons|..])
  {
  }

  lemma ListedAt(options: Arg, a: Arg, c: char, colons: string, b: Arg)
    requires Listed(options, a, c, colons, b)
    ensures |a| == Strchr(options, c) < |options| && colons + b == options[|a| + 1..]
  {
    assert options[|a|] == c && options[|a| + 1..] == colons + b;
    assert forall j {:trigger options[j]} :: 0 <= j < |a| ==> options[j] == a[j];
  }

  /** The letter function says what the option string means, and nothing else does. */
  lemma LetterMeans(argv: seq<Arg>, options: Arg, i: nat, place: Arg)
    requires i < |argv| && place != []
    ensures forall e, n: nat {:trigger Means(argv, options, i, place, e, n)} ::
              Means(argv, options, i, place, e, n) <==> (e, n) == Letter(argv, options, i, place)
  {
    hide LetterKind, TakesNone, TakesArgument, MayTakeArgument;
    OneKind(options, place[0]);
  }

  /** What scanning a vector from argument i on comes to, by the option string alone. */
  ghost predicate Scanned(argv: seq<Arg>, options: Arg, i: nat, place: Arg, o: Outcome)
    requires i <= |argv| && (place != [] ==> i < |argv|)
    decreases |argv| - i, if place == [] then 1 else 0, |place|
  {
    if place != [] then
      exists e, n: nat, o': Outcome {:trigger Means(argv, options, i, place, e, n), Prepend([e], [], [], o')} ::
        && Means(argv, options, i, place, e, n) && i + n <= |argv| && (n > 0 || place[1..] != [])
        && Scanned(argv, options, i + n, if n > 0 then [] else place[1..], o')
        && o == Outcome([e] + o'.events, argv[i..i + n] + o'.opts, o'.nonopts, o'.tail)
    else if i == |argv| then o == Outcome([], [], [], [])
    else if argv[i] == "" || argv[i] == "-" || argv[i][0] != '-' then
      o.nonopts != [] && o.nonopts[0] == argv[i] && Scanned(argv, options, i + 1, [], o.(nonopts := o.nonopts[1..]))
    else if argv[i][1] == '-' then o == Outcome([], [argv[i]], [], argv[i + 1..])
    else Scanned(argv, options, i, argv[i][1..], o)
  }

  lemma {:induction false} ScanIs(argv: seq<Arg>, options: Arg, i: nat, place: Arg, o: Outcome)
    requires i <= |argv| && (place != [] ==> i < |argv|)
    ensures Scanned(argv, options, i, place, o) <==> o == Scan(argv, options, i, place)
    decreases |argv| - i, if place == [] then 1 else 0, |place|
  {
    if place != [] {
      ScanLetterIs(argv, options, i, place, o);
    } else if i < |argv| && NonOption(argv[i]) {
      hide Scanned;
      NonOptionIs(argv, options, i, o);
    } else if i < |argv| && !TwoDashes(argv[i]) {
      ScanUnfolds(argv, options, i, place);
      ScanIs(argv, options, i, argv[i][1..], o);
    }
  }

  lemma {:induction false} ScanLetterIs(argv: seq<Arg>, options: Arg, i: nat, place: Arg, o: Outcome)
    requires i < |argv| && place != []
    ensures Scanned(argv, options, i, place, o) <==> o == Scan(argv, options, i, place)
    decreases |argv| - i, 0, |place|, 0
  {
    hide *;
    LetterMeans(argv, options, i, place);
    ScanUnfolds(argv, options, i, place);
    var (e, n) := Letter(argv, options, i, place);
    var next := if n > 0 then [] else place[1..];
    var s := Scan(argv, options, i + n, next);
    ScanIs(argv, options, i + n, next, s);
    assert Means(argv, options, i, place, e, n);
    LetterScanned(argv, options, i, place, e, n, s);
    if Scanned(argv, options, i, place, o) {
      var e', n', o' := LetterOfScan(argv, options, i, place, o);
      ScanIs(argv, options, i + n, next, o');
      LetterScanned(argv, options, i, place, e, n, o');
    }
  }

  lemma LetterScanned(argv: seq<Arg>, options: Arg, i: nat, place: Arg, e: Event, n: nat, o: Outcome)
    requires i < |argv| && place != [] && i + n <= |argv| && (n > 0 || place[1..] != [])
    requires Means(argv, options, i, place, e, n) && Scanned(argv, options, i + n, if n > 0 then [] else place[1..], o)
    ensures Scanned(argv, options, i, place, Prepend([e], argv[i..i + n], [], o))
    ensures Prepend([e], argv[i..i + n], [], o) ==
            Outcome([e] + o.events, argv[i..i + n] + o.opts, o.nonopts, o.tail)
  {
    hide Means;
    assert [] + o.nonopts == o.nonopts;
    assert Prepend([e], [], [], o).tail == o.tail;
  }

  lemma LetterOfScan(argv: seq<Arg>, options: Arg, i: nat, place: Arg, o: Outcome)
    returns (e: Event, n: nat, o': Outcome)
    requires i < |argv| && place != [] && Scanned(argv, options, i, place, o)
    ensures Means(argv, options, i, place, e, n) && i + n <= |argv| && (n > 0 || place[1..] != [])
    ensures Scanned(argv, options, i + n, if n > 0 then [] else place[1..], o')
    ensures o == Outcome([e] + o'.events, argv[i..i + n] + o'.opts, o'.nonopts, o'.tail)
  {
    hide Means;
    e, n, o' :|
      && Means(argv, options, i, place, e, n) && i + n <= |argv| && (n > 0 || place[1..] != [])
      && Scanned(argv, options, i + n, if n > 0 then [] else place[1..], o')
      && o == Outcome([e] + o'.events, argv[i..i + n] + o'.opts, o'.nonopts, o'.tail);
  }

  lemma {:induction false} NonOptionIs(argv: seq<Arg>, options: Arg, i: nat, o: Outcome)
    requires i < |argv| && NonOption(argv[i])
    ensures Scanned(argv, options, i, [], o) <==> o == Scan(argv, options, i, [])
    decreases |argv| - i, 1, 0, 0
  {
    var s := Scan(argv, options, i + 1, []);
    assert [] + s.events == s.events && [] + s.opts == s.opts;
    ScanIs(argv, options, i + 1, [], s);
    var all := [argv[i]] + s.nonopts;
    assert all[1..] == s.nonopts;
    if o.nonopts != [] {
      ScanIs(argv, options, i + 1, [], o.(nonopts := o.nonopts[1..]));
      assert o.nonopts == [o.nonopts[0]] + o.nonopts[1..];
    }
  }

  /** An option with an argument of its own takes the next one. */
  lemma ArgumentTaken()
    ensures Scan(["p", "-o", "file"], "o:", 1, []) == Outcome([Event('o', Some("file"), None)], ["-o", "file"], [], [])
  {
    var argv := ["p", "-o", "file"];
    assert Strchr("o:", 'o') == 0 && argv[1][1..] == "o" && "o"[1..] == [];
    assert Letter(argv, "o:", 1, "o") == (Event('o', Some("file"), None), 2);
    assert Scan(argv, "o:", 3, []) == Outcome([], [], [], []);
    assert argv[1..3] == ["-o", "file"];
  }

  // ----- what is meant to end the options -----

  const DASHES: Arg := "--"

  /** Scanning as the comments have it: the options end at "--" alone, and other dashes are letters. */
  function ScanIntended(argv: seq<Arg>, options: Arg, i: nat, place: Arg): Outcome
    requires i <= |argv| && (place != [] ==> i < |argv|)
    decreases |argv| - i, if place == [] then 1 else 0, |place|
  {
    if place != [] then
      var (e, n) := Letter(argv, options, i, place);
      Prepend([e], argv[i..i + n], [], ScanIntended(argv, options, i + n, if n > 0 then [] else place[1..]))
    else if i == |argv| then Outcome([], [], [], [])
    else if NonOption(argv[i]) then Prepend([], [], [argv[i]], ScanIntended(argv, options, i + 1, []))
    else if argv[i] == DASHES then Outcome([], [argv[i]], [], argv[i + 1..])
    else ScanIntended(argv, options, i, argv[i][1..])
  }

  /** The argument at which the scan ends the options, or the length of the vector. */
  function EndAt(argv: seq<Arg>, options: Arg, i: nat, place: Arg): (d: nat)
    requires i <= |argv| && (place != [] ==> i < |argv|)
    ensures i <= d <= |argv| && (d < |argv| ==> TwoDashes(argv[d]))
    decreases |argv| - i, if place == [] then 1 else 0, |place|
  {
    if place != [] then
      var (e, n) := Letter(argv, options, i, place);
      EndAt(argv, options, i + n, if n > 0 then [] else place[1..])
    else if i == |argv| then i
    else if NonOption(argv[i]) then EndAt(argv, options, i + 1, [])
    else if TwoDashes(argv[i]) then i
    else EndAt(argv, options, i, argv[i][1..])
  }

  /** The code scans as intended exactly if the argument at which it ends the options, if any, is "--". */
  lemma {:induction false} DashesIff(argv: seq<Arg>, options: Arg, i: nat, place: Arg)
    requires i <= |argv| && (place != [] ==> i < |argv|)
    ensures var d := EndAt(argv, options, i, place);
            var o, o' := Scan(argv, options, i, place), ScanIntended(argv, options, i, place);
            if d == |argv| || argv[d] == DASHES then o == o' else |o.events| < |o'.events|
    decreases |argv| - i, if place == [] then 1 else 0, |place|
  {
    hide Letter, NonOption;
    if place != [] {
      var (e, n) := Letter(argv, options, i, place);
      DashesIff(argv, options, i + n, if n > 0 then [] else place[1..]);
    } else if i < |argv| && NonOption(argv[i]) {
      DashesIff(argv, options, i + 1, []);
    } else if i < |argv| && !TwoDashes(argv[i]) {
      ScanUnfolds(argv, options, i, place);
      DashesIff(argv, options, i, argv[i][1..]);
    } else if i < |argv| {
      ScanUnfolds(argv, options, i, place);
    }
  }

  /** The option x behind a second dash: the code takes the argument for the end and reports nothing. */
  lemma DashesDiffer()
    ensures var argv, options := ["p", "--x"], "x";
            && Permuting(options) && EndAt(argv, options, 1, []) == 1
            && Scan(argv, options, 1, []) == Outcome([], ["--x"], [], [])
            && ScanIntended(argv, options, 1, []).events == [Event('?', None, Some('-')), Event('x', None, None)]
  {
    var argv, options := ["p", "--x"], "x";
    assert Strchr(options, 'x') == 0 && Strchr(options, '-') == 1 && Strchr(options, 'W') == 1;
    assert argv[1][1..] == "-x" && "-x"[1..] == "x" && "x"[1..] == [];
    assert Letter(argv, options, 1, "-x") == (Event('?', None, Some('-')), 0);
    assert Letter(argv, options, 1, "x") == (Event('x', None, None), 1);
    assert ScanIntended(argv, options, 2, []) == Outcome([], [], [], []);
    assert ScanIntended(argv, options, 1, "x").events == [Event('x', None, None)];
    assert !NonOption(argv[1]) && argv[1] != DASHES && TwoDashes(argv[1]);
  }

  datatype Result = Char(c: char) | End | Dashes

  /** Returned characters and option arguments, call by call. */
  ghost predicate Reports(events: seq<Event>, letters: seq<char>, args: seq<Option<Arg>>) {
    && |letters| == |args| == |events|
    && (forall i {:trigger events[i]} :: 0 <= i < |events| ==>
      letters[i] == events[i].ret && args[i] == events[i].optarg)
  }

  class Scanner {
    const nargv: array<Arg>
    const options: Arg
    var optind: nat
    var optarg: Option<Arg>
    var optopt: char
    var place: Arg
    var nonoptStart: int
    var nonoptEnd: int
    // the original vector, and how the scanned part of it is laid out now
    ghost const orig: seq<Arg>
    ghost const start: nat
    ghost var before: seq<Arg>
    ghost var non: seq<Arg>
    ghost var after: seq<Arg>
    ghost var events: seq<Event>

    ghost function Whole(): Outcome
      requires start <= |orig|
    {
      Scan(orig, options, start, [])
    }

    /** Where the marks are: non-options are one block between options. */
    ghost predicate Marked()
      reads this
    {
      && optind == start + |before| + |non| + |after|
      && (nonoptStart == -1 ==> non == [] && after == [] && nonoptEnd == -1)
      && (nonoptStart != -1 ==> nonoptStart == start + |before| && non != [])
      && (nonoptStart != -1 && nonoptEnd == -1 ==> after == [])
      && (nonoptEnd != -1 ==> nonoptEnd == nonoptStart + |non| && nonoptStart != -1)
    }

    ghost predicate Laid()
      requires start <= |orig| && optind <= |orig|
      reads this, nargv
    {
      nargv[..] == orig[..start] + before + non + after + orig[optind..]
    }

    ghost predicate Valid()
      reads this, nargv
    {
      && start <= optind <= |orig| == nargv.Length
      && Permuting(options)
      && (place != [] ==> optind < |orig| && (nonoptStart != -1 ==> nonoptEnd != -1))
      && (place == [] && nonoptEnd != -1 ==> after != [])
      && Marked() && Laid()
      && Whole() == Prepend(events, before + after, non, Scan(orig, options, optind, place))
    }

    /** The parse is over: the vector is permuted and the index points behind the options. */
    ghost predicate Finished()
      requires start <= |orig|
      reads this, nargv
    {
      var w := Whole();
      && nargv[..] == orig[..start] + w.opts + w.nonopts + w.tail
      && optind == start + |w.opts|
      && events == w.events
    }

    constructor (argv: array<Arg>, opts: Arg)
      requires argv.Length >= 1 && Permuting(opts)
      ensures Valid() && nargv == argv && options == opts && orig == argv[..] && start == 1 && events == []
    {
      nargv, options := argv, opts;
      optind, optarg, optopt, place := 1, None, '?', [];
      nonoptStart, nonoptEnd := -1, -1;
      orig, start := argv[..], 1;
      before, non, after, events := [], [], [], [];
      new;
      assert nargv[..] == orig[..1] + [] + [] + [] + orig[1..];
      PrependNothing(Scan(orig, options, 1, []));
    }

    /** The scan stands at an argument that begins with two dashes. */
    ghost predicate AtDashes()
      reads this, nargv
    {
      && start <= optind < |orig| == nargv.Length
      && (nonoptStart != -1 ==> nonoptEnd != -1)
      && Marked() && Laid()
      && Whole() == Prepend(events, before + after, non, Outcome([], [orig[optind]], [], orig[optind + 1..]))
    }

    /** Move the non-options behind the options that follow them. */
    method MoveBlock()
      requires start <= optind <= |orig| == nargv.Length && Marked() && Laid() && nonoptEnd != -1 && after != []
      modifies nargv, this`before, this`after
      ensures before == old(before + after) && after == []
      ensures nargv[..] == orig[..start] + before + non + orig[optind..]
    {
      ghost var a := orig[..start] + before;
      ghost var d := orig[optind..];
      assert nargv[..] == a + non + after + d;
      Cuts(a, non, after, d, nargv[..], nonoptStart, nonoptEnd, optind);
      PermuteArgs(nonoptStart, nonoptEnd, optind, nargv);
      Moved(orig[..start], before, non, after, d);
      before := before + after;
      after := [];
    }

    /** The end of the vector: bring the non-options to the end. */
    method EndOfArgs()
      requires Valid() && place == [] && optind == |orig|
      modifies this, nargv
      ensures Finished() && events == old(events)
    {
      if nonoptEnd != -1 {
        MoveBlock();
        optind := optind - (nonoptEnd - nonoptStart);
      } else if nonoptStart != -1 {
        optind := nonoptStart;
      }
      nonoptStart, nonoptEnd := -1, -1;
      Closing(orig, events, before, non, old(before + after), old(non));
    }

    /** Step over a non-option, first moving an earlier block of them up to it. */
    method SkipNonOption()
      requires Valid() && place == [] && optind < |orig| && NonOption(orig[optind])
      modifies this, nargv
      ensures Valid() && place == [] && optind == old(optind) + 1 && events == old(events)
    {
      hide Scan, Prepend, NonOption, Permuting;
      ghost var o, n, d := before + after, non, orig[optind..];
      if nonoptStart == -1 {
        nonoptStart := optind;
      } else if nonoptEnd != -1 {
        MoveBlock();
        nonoptStart := optind - (nonoptEnd - nonoptStart);
        nonoptEnd := -1;
      }
      assert nargv[..] == orig[..start] + before + non + after + d && before + after == o by {
        NoTail(orig[..start] + before + non, before, after);
      }
      SkipOne(orig[..start] + before, non, orig, optind);
      StepNon(orig, options, optind, events, o, n);
      non := non + [orig[optind]];
      optind := optind + 1;
      assert nargv[..] == orig[..start] + before + non + after + orig[optind..];
    }

    /** An option: the first one after a block of non-options ends that block. */
    method TakeOption() returns (dashes: bool)
      requires Valid() && place == [] && optind < |orig| && !NonOption(orig[optind]) && nargv[optind] == orig[optind]
      modifies this`place, this`nonoptEnd
      ensures dashes ==> AtDashes()
      ensures !dashes ==> Valid() && place != []
    {
      hide Scan, Prepend, Permuting;
      ScanUnfolds(orig, options, optind, []);
      if nonoptStart != -1 && nonoptEnd == -1 {
        nonoptEnd := optind;
      }
      place := nargv[optind][1..];
      dashes := place[0] == '-';
      if dashes {
        place := place[1..];
      }
    }

    method AtNonOption() returns (b: bool)
      requires Valid() && optind < |orig|
      ensures nargv[optind] == orig[optind] && b == NonOption(orig[optind])
    {
      hide Scan, Prepend, Permuting;
      HeadAt(orig[..start] + before + non + after, orig, optind, nargv[..]);
      var arg := nargv[optind];
      b := arg == [] || arg[0] != '-' || |arg| == 1;
    }

    /** Scan forward to the next option; the result says if the vector or the options end first. */
    method NextArgument() returns (r: Option<Result>)
      requires Valid() && place == []
      modifies this, nargv
      ensures events == old(events)
      ensures r == None ==> Valid() && place != []
      ensures r == Some(End) ==> Finished()
      ensures r == Some(Dashes) ==> AtDashes()
      ensures r == None || r == Some(End) || r == Some(Dashes)
    {
      hide Scan, Prepend, Permuting, NonOption;
      while true
        invariant Valid() && place == [] && events == old(events)
        decreases |orig| - optind
      {
        if optind >= nargv.Length {
          EndOfArgs();
          return Some(End);
        }
        var non := AtNonOption();
        if !non {
          var dashes := TakeOption();
          return if dashes then Some(Dashes) else None;
        }
        SkipNonOption();
      }
    }

    /** The next letter of a cluster: it may complete one argument, or two. */
    method ScanLetter() returns (c: char)
      requires optind < nargv.Length && place != []
      modifies this`optind, this`optarg, this`optopt, this`place
      ensures var (e, n) := Letter(nargv[..], options, old(optind), old(place));
              && c == e.ret && optarg == e.optarg && (e.optopt.Some? ==> optopt == e.optopt.value)
              && Means(nargv[..], options, old(optind), old(place), e, n)
              && optind == old(optind) + n && place == if n > 0 then [] else old(place)[1..]
    {
      LetterMeans(nargv[..], options, optind, place);
      var optchar := place[0];
      place := place[1..];
      optarg := None;
      var oli := Strchr(options, optchar);
      if optchar == ':' || oli == |options| {
        if place == [] {
          optind := optind + 1;
        }
        optopt := optchar;
        return '?';
      }
      if oli + 1 == |options| || options[oli + 1] != ':' {
        if place == [] {
          optind := optind + 1;
        }
      } else {
        if place != [] {
          optarg := Some(place);
        } else if oli + 2 == |options| || options[oli + 2] != ':' {
          optind := optind + 1;
          if optind >= nargv.Length {
            place := [];
            optopt := optchar;
            return BadArg(options);
          }
          optarg := Some(nargv[optind]);
        }
        place := [];
        optind := optind + 1;
      }
      return optchar;
    }

    /** The scan of a letter, with the arguments it completes joining the options. */
    method NextLetter() returns (c: char)
      requires Valid() && place != []
      modifies this
      ensures Valid()
      ensures var (e, n) := Letter(orig, options, old(optind), old(place));
              && events == old(events) + [e]
              && c == e.ret && optarg == e.optarg && (e.optopt.Some? ==> optopt == e.optopt.value)
    {
      hide Scan, Prepend, Letter, Permuting;
      ghost var i, p, o := optind, place, before + after;
      ghost var (e, n) := Letter(orig, options, i, p);
      SameLetter(orig[..start] + before + non + after, orig, options, i, p, nargv[..]);
      StepLetter(orig, options, i, p, events, o, non);
      c := ScanLetter();
      events := events + [e];
      if nonoptStart == -1 {
        before := before + orig[i..i + n];
      } else {
        after := after + orig[i..i + n];
      }
      Join(orig[..start], old(before), old(after), non, orig, i, n);
      assert before + after == o + orig[i..i + n];
    }

    /** The core routine: a character of the option string, the end, or two dashes. */
    method GetoptInternal() returns (r: Result)
      requires Valid()
      modifies this, nargv
      ensures r.Char? ==>
        Valid()
        && events == old(events) + [Event(r.c, optarg, if |events| > 0 then events[|events| - 1].optopt else None)]
      ensures r.End? ==> Finished() && events == old(events)
      ensures r.Dashes? ==> AtDashes() && events == old(events)
    {
      optarg := None;
      if place == [] {
        var ended := NextArgument();
        if ended.Some? {
          return ended.value;
        }
      }
      var c := NextLetter();
      r := Char(c);
    }

    /** One call: an option, or None at the end, when the vector is permuted. */
    method Getopt() returns (r: Option<char>)
      requires Valid()
      modifies this, nargv
      ensures r.Some? ==> Valid() && |events| == |old(events)| + 1 && events[..|old(events)|] == old(events)
      ensures r.Some? ==> events[|old(events)|].ret == r.value && events[|old(events)|].optarg == optarg
      ensures r.None? ==> Finished() && events == old(events)
    {
      var internal := GetoptInternal();
      match internal
      case Char(c) => r := Some(c);
      case End => r := None;
      case Dashes =>
        EndAtDashes();
        r := None;
    }

    /** The dashes end the options: step over them and bring the options to the front. */
    method EndAtDashes()
      requires AtDashes()
      modifies this, nargv
      ensures Finished() && events == old(events)
    {
      hide Scan, Permuting, NonOption;
      TakeDashes();
      if nonoptEnd != -1 {
        MoveBlock();
        optind := optind - (nonoptEnd - nonoptStart);
      }
      nonoptStart, nonoptEnd := -1, -1;
    }

    /** How many calls are still to come, at least none. */
    lemma EventsLeft()
      requires Valid()
      ensures |events| <= |Whole().events|
    {
    }

    /** Calls until the end. */
    method ToEnd() returns (letters: seq<char>, args: seq<Option<Arg>>)
      requires Valid() && events == []
      modifies this, nargv
      ensures Finished() && Reports(events, letters, args)
    {
      hide Scan, Prepend, Permuting;
      letters, args := [], [];
      while true
        invariant Valid() && Reports(events, letters, args)
        decreases |Whole().events| - |events|
      {
        EventsLeft();
        var r := Getopt();
        if r == None {
          break;
        }
        EventsLeft();
        letters, args := letters + [r.value], args + [optarg];
      }
    }

    /** The dashes themselves belong to the options. */
    method TakeDashes()
      requires AtDashes()
      modifies this`optind, this`before, this`after
      ensures optind == old(optind) + 1 <= |orig| == nargv.Length && start <= optind && Marked() && Laid()
      ensures nonoptEnd != -1 ==> after != []
      ensures nonoptEnd == -1 ==> non == [] && after == []
      ensures Whole() == Outcome(events, before + after, non, orig[optind..])
    {
      ghost var i := optind;
      optind := optind + 1;
      if nonoptEnd == -1 {
        before := before + orig[i..i + 1];
      } else {
        after := after + orig[i..i + 1];
      }
      Join(orig[..start], old(before), old(after), non, orig, i, 1);
      assert events + [] == events && non + [] == non && orig[i..i + 1] == [orig[i]];
      assert old(before + after) + [orig[i]] == before + after;
    }
  }

  /** What a run over v is to leave behind and to report. */
  ghost predicate Ends(v: seq<Arg>, o: Outcome, now: seq<Arg>, optind: nat, letters: seq<char>, args: seq<Option<Arg>>)
    requires |v| >= 1
  {
    && now == v[..1] + o.opts + o.nonopts + o.tail
    && optind == 1 + |o.opts|
    && Reports(o.events, letters, args)
  }

  /**
    A whole permuting run: the calls report exactly what a scan of the original
    vector reports, and at the end the options with their arguments come first,
    then the non-options, then what follows the dashes, all in original order.
    What each letter reports is what the option string says of it. All is as
    intended exactly if only "--" was taken for the end of the options.
   */
  method Run(argv: array<Arg>, options: Arg) returns (letters: seq<char>, args: seq<Option<Arg>>, optind: nat)
    requires argv.Length >= 1 && Permuting(options)
    modifies argv
    ensures Ends(old(argv[..]), Scan(old(argv[..]), options, 1, []), argv[..], optind, letters, args)
    ensures exists o {:trigger Scanned(old(argv[..]), options, 1, [], o)} ::
              Scanned(old(argv[..]), options, 1, [], o) && Ends(old(argv[..]), o, argv[..], optind, letters, args)
    ensures var d := EndAt(old(argv[..]), options, 1, []);
            Ends(old(argv[..]), ScanIntended(old(argv[..]), options, 1, []), argv[..], optind, letters, args)
            <==> d == argv.Length || old(argv[..])[d] == DASHES
    ensures multiset(argv[..]) == multiset(old(argv[..]))
  {
    ghost var v := argv[..];
    var s := new Scanner(argv, options);
    letters, args := s.ToEnd();
    optind := s.optind;
    DashesIff(v, options, 1, []);
    ScanIs(v, options, 1, [], Scan(v, options, 1, []));
    Permuted(v, options, argv[..]);
  }

  lemma Permuted(v: seq<Arg>, options: Arg, now: seq<Arg>)
    requires |v| >= 1
    requires var o := Scan(v, options, 1, []); now == v[..1] + o.opts + o.nonopts + o.tail
    ensures multiset(now) == multiset(v)
  {
    hide Scan;
    ScanCovers(v, options, 1, []);
    assert v == v[..1] + v[1..];
  }

  /** The arguments still to be scanned are where they were. */
  lemma SameLetter(a: seq<Arg>, orig: seq<Arg>, options: Arg, i: nat, place: Arg, v: seq<Arg>)
    requires i < |orig| && |a| == i && v == a + orig[i..] && place != []
    ensures |v| == |orig| && Letter(v, options, i, place) == Letter(orig, options, i, place)
  {
    assert i + 1 < |orig| ==> v[i + 1] == orig[i + 1];
  }

  lemma StepLetter(argv: seq<Arg>, options: Arg, i: nat, place: Arg, events: seq<Event>, opts: seq<Arg>,
                   nonopts: seq<Arg>)
    requires i < |argv| && place != []
    ensures var (e, n) := Letter(argv, options, i, place);
            Prepend(events, opts, nonopts, Scan(argv, options, i, place)) ==
            Prepend(events + [e], opts + argv[i..i + n], nonopts,
              Scan(argv, options, i + n, if n > 0 then [] else place[1..]))
  {
    var (e, n) := Letter(argv, options, i, place);
    var o := Scan(argv, options, i + n, if n > 0 then [] else place[1..]);
    assert events + ([e] + o.events) == events + [e] + o.events;
    assert opts + (argv[i..i + n] + o.opts) == opts + argv[i..i + n] + o.opts;
    assert [] + o.nonopts == o.nonopts;
  }

  lemma Join(s: seq<Arg>, b: seq<Arg>, a: seq<Arg>, non: seq<Arg>, orig: seq<Arg>, i: nat, n: nat)
    requires i + n <= |orig|
    ensures s + b + non + (a + orig[i..i + n]) + orig[i + n..] == s + b + non + a + orig[i..]
    ensures s + (b + orig[i..i + n]) + [] + [] + orig[i + n..] == s + b + [] + [] + orig[i..]
  {
    assert orig[i..i + n] + orig[i + n..] == orig[i..];
  }

  lemma NoTail(a: seq<Arg>, b: seq<Arg>, c: seq<Arg>)
    ensures c == [] ==> a + c == a && b + c == b
  {
  }

  lemma SkipOne(a: seq<Arg>, non: seq<Arg>, orig: seq<Arg>, i: nat)
    requires i < |orig|
    ensures a + (non + [orig[i]]) + [] + orig[i + 1..] == a + non + orig[i..]
  {
  }

  lemma HeadAt(a: seq<Arg>, orig: seq<Arg>, i: nat, v: seq<Arg>)
    requires i < |orig| && |a| == i && v == a + orig[i..]
    ensures v[i] == orig[i]
  {
  }

  /** A non-option joins its group. */
  lemma StepNon(argv: seq<Arg>, options: Arg, i: nat, events: seq<Event>, opts: seq<Arg>, nonopts: seq<Arg>)
    requires i < |argv| && NonOption(argv[i])
    ensures Prepend(events, opts, nonopts, Scan(argv, options, i, [])) ==
            Prepend(events, opts, nonopts + [argv[i]], Scan(argv, options, i + 1, []))
  {
    var o := Scan(argv, options, i + 1, []);
    assert [] + o.events == o.events && [] + o.opts == o.opts;
    assert nonopts + ([argv[i]] + o.nonopts) == nonopts + [argv[i]] + o.nonopts;
  }

  lemma PrependNothing(o: Outcome)
    ensures Prepend([], [], [], o) == o
    ensures Prepend([], [] + [], [], o) == o
  {
    assert [] + o.events == o.events && [] + o.opts == o.opts && [] + o.nonopts == o.nonopts;
  }

  lemma Cuts(a: seq<Arg>, b: seq<Arg>, c: seq<Arg>, d: seq<Arg>, v: seq<Arg>, i: int, j: int, k: int)
    requires v == a + b + c + d && i == |a| && j == i + |b| && k == j + |c|
    ensures v[..i] == a && v[i..j] == b && v[j..k] == c && v[k..] == d
  {
  }

  lemma Moved(s: seq<Arg>, a: seq<Arg>, b: seq<Arg>, c: seq<Arg>, d: seq<Arg>)
    ensures (s + a) + (c + b) + d == s + (a + c) + b + d
  {
  }

  lemma Closing(orig: seq<Arg>, events: seq<Event>, before: seq<Arg>, non: seq<Arg>, opts: seq<Arg>, nonopts: seq<Arg>)
    ensures var o := Prepend(events, opts, nonopts, Outcome([], [], [], []));
            o.events == events && o.opts == opts && o.nonopts == nonopts
    ensures orig[|orig|..] == []
  {
  }
}
