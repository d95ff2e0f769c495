/**
 The password-assembly routine of the generator's "Generate" button:
 validate the length and the ticked classes, build the pool, draw one seed
 character per enabled class, fill the rest (with or without repeats) and
 shuffle. Every random draw is an arbitrary choice within its bounds, so what
 is proved here holds for every outcome of the random generator.
 */
module PasswordGenerator {
  import opened Sequences
  import opened CharClasses

  /** Outcome of `int(...)` on the length field: `None` when it raised. */
  datatype Option<T> = None | Some(value: T)

  /** The four class check boxes. */
  datatype Selection = Selection(upper: bool, lower: bool, digits: bool, symbols: bool) {

    predicate Enabled(c: CharClass) {
      match c
      case Uppercase => upper
      case Lowercase => lower
      case Digit => digits
      case Symbol => symbols
    }

    /** The enabled classes, in the fixed order upper, lower, digits, symbols. */
    function Classes(): (cs: seq<CharClass>)
      ensures forall c :: c in cs <==> Enabled(c)
      ensures forall i, j :: 0 <= i < j < |cs| ==> Rank(cs[i]) < Rank(cs[j])
    {
      (if upper then [Uppercase] else [])
      + (if lower then [Lowercase] else [])
      + (if digits then [Digit] else [])
      + (if symbols then [Symbol] else [])
    }

    /** `selected_types`: the number of ticked boxes. */
    function Count(): (n: nat)
      ensures n <= 4
      ensures n == |Classes()|
    {
      (if upper then 1 else 0) + (if lower then 1 else 0)
      + (if digits then 1 else 0) + (if symbols then 1 else 0)
    }
  }

  /** Position of a class in the order the pool lists them. */
  function Rank(c: CharClass): nat {
    match c
    case Uppercase => 0
    case Lowercase => 1
    case Digit => 2
    case Symbol => 3
  }

  /** `char_map`: the character strings of the given classes, in order. */
  function ClassStrings(cs: seq<CharClass>): (m: seq<string>)
    ensures |m| == |cs|
    ensures forall i :: 0 <= i < |cs| ==> m[i] == Chars(cs[i])
  {
    seq(|cs|, i requires 0 <= i < |cs| => Chars(cs[i]))
  }

  /** `full_pool`: the enabled classes' characters joined in class order. */
  function Pool(sel: Selection): string {
    Concat(ClassStrings(sel.Classes()))
  }

  /** A character is in the pool exactly when an enabled class lists it. */
  lemma PoolMembership(sel: Selection, ch: char)
    ensures ch in Pool(sel) <==> exists c :: sel.Enabled(c) && ch in Chars(c)
  {
  }

  /** The pool never repeats a character, so its length is also the number
      of distinct characters in it, which is what the uniqueness check
      reports. */
  lemma PoolHasNoRepeats(sel: Selection)
    ensures Distinct(Pool(sel))
    ensures |Elements(Pool(sel))| == |Pool(sel)|
  {
    var cs := sel.Classes();
    var m := ClassStrings(cs);
    forall i | 0 <= i < |m| ensures Distinct(m[i]) {
      ClassHasNoRepeats(cs[i]);
    }
    forall i, j, x | 0 <= i < j < |m| && x in m[i] ensures x !in m[j] {
      ClassesDisjoint(cs[i], cs[j], x);
    }
    ConcatDistinct(m);
    DistinctElementsCount(Pool(sel));
  }

  /** The pool holds 26, 26, 10 and 32 characters for the four classes. */
  lemma PoolSize(sel: Selection)
    ensures |Pool(sel)| == (if sel.upper then 26 else 0) + (if sel.lower then 26 else 0)
                           + (if sel.digits then 10 else 0) + (if sel.symbols then 32 else 0)
  {
    var m := ClassStrings(sel.Classes());
    ConcatLength(m);
    TotalLengthOfClasses(sel.Classes());
    var u := if sel.upper then [Uppercase] else [];
    var l := if sel.lower then [Lowercase] else [];
    var d := if sel.digits then [Digit] else [];
    var p := if sel.symbols then [Symbol] else [];
    assert sel.Classes() == u + l + d + p;
    SumOfSizesAppend(u, l);
    SumOfSizesAppend(u + l, d);
    SumOfSizesAppend(u + l + d, p);
  }

  lemma {:induction false} TotalLengthOfClasses(cs: seq<CharClass>)
    ensures TotalLength(ClassStrings(cs)) == SumOfSizes(cs)
  {
    if cs != [] {
      assert ClassStrings(cs)[1..] == ClassStrings(cs[1..]);
      TotalLengthOfClasses(cs[1..]);
    }
  }

  function SumOfSizes(cs: seq<CharClass>): nat {
    if cs == [] then 0 else |Chars(cs[0])| + SumOfSizes(cs[1..])
  }

  lemma {:induction false} SumOfSizesAppend(a: seq<CharClass>, b: seq<CharClass>)
    ensures SumOfSizes(a + b) == SumOfSizes(a) + SumOfSizes(b)
  {
    if a != [] {
      assert (a + b)[1..] == a[1..] + b;
      SumOfSizesAppend(a[1..], b);
    } else {
      assert a + b == b;
    }
  }

  // ---------------------------------------------------------------------
  // Random draws. Each `:|` is one call into the random generator; the
  // contracts hold whichever value it returns.

  /** `[random.choice(s) for s in char_map]`: one character from each string. */
  method DrawSeeds(charMap: seq<string>) returns (seeds: string)
    requires forall i :: 0 <= i < |charMap| ==> charMap[i] != []
    ensures |seeds| == |charMap|
    ensures forall i :: 0 <= i < |charMap| ==> seeds[i] in charMap[i]
  {
    seeds := [];
    for k := 0 to |charMap|
      invariant |seeds| == k
      invariant forall i :: 0 <= i < k ==> seeds[i] in charMap[i]
    {
      assert charMap[k][0] in charMap[k];
      var ch :| ch in charMap[k];
      seeds := seeds + [ch];
    }
  }

  /** `[random.choice(full_pool) for _ in range(remaining)]`: a negative
      count gives an empty range and so no characters. */
  method FillWithReplacement(pool: string, remaining: int) returns (fill: string)
    requires pool != []
    ensures |fill| == if remaining < 0 then 0 else remaining
    ensures forall ch :: ch in fill ==> ch in pool
  {
    fill := [];
    var n := 0;
    while n < remaining
      invariant |fill| == if remaining < 0 then 0 else n
      invariant n <= remaining || n == 0
      invariant forall ch :: ch in fill ==> ch in pool
    {
      assert pool[0] in pool;
      var ch :| ch in pool;
      fill := fill + [ch];
      n := n + 1;
    }
  }

  /** `random.sample(population, k)`: `k` characters drawn without
      replacement. The caller rules out the negative `k` for which Python
      raises. */
  method Sample(population: set<char>, k: nat) returns (chosen: string)
    requires k <= |population|
    ensures |chosen| == k
    ensures Distinct(chosen)
    ensures forall ch :: ch in chosen ==> ch in population
  {
    chosen := [];
    var rest := population;
    while |chosen| < k
      invariant |chosen| <= k
      invariant rest <= population
      invariant |rest| == |population| - |chosen|
      invariant Distinct(chosen)
      invariant forall ch :: ch in chosen ==> ch in population && ch !in rest
    {
      var ch :| ch in rest;
      DistinctAppend(chosen, [ch]);
      chosen := chosen + [ch];
      rest := rest - {ch};
    }
  }

  /** `random.shuffle(x)`: CPython's Fisher-Yates pass, swapping each
      position from the end down with one at or before it. */
  method Shuffle(a: array<char>)
    modifies a
    ensures multiset(a[..]) == old(multiset(a[..]))
  {
    var i := a.Length - 1;
    while i > 0
      invariant -1 <= i < a.Length
      invariant multiset(a[..]) == old(multiset(a[..]))
    {
      var j :| 0 <= j <= i;
      a[i], a[j] := a[j], a[i];
      i := i - 1;
    }
  }

  // ---------------------------------------------------------------------
  // The routine behind the "Generate" button.

  datatype Warning = WeakLength | LowDiversity

  /** The error dialogs that end a generation attempt. */
  datatype Error =
    | InvalidLength               // the length field is not an integer
    | NoClassSelected             // no class box is ticked
    | PoolTooSmall(size: nat)     // unique mode, length beyond the pool

  datatype Outcome =
    | Rejected(error: Error)
      // `random.sample` raised ValueError for a negative sample size; nothing
      // in the routine catches it
    | SampleRaised
    | Generated(password: string)

  /** The warnings shown, in order, and how the attempt ended. */
  datatype Report = Report(warnings: seq<Warning>, outcome: Outcome)

  /** Every enabled class has a character in `pw`. */
  predicate CoversClasses(pw: string, sel: Selection) {
    forall c :: sel.Enabled(c) ==> exists ch :: ch in pw && ch in Chars(c)
  }

  /** What a generated password satisfies for requested length `n`: `n`
      characters (or one per enabled class when `n` is smaller, since that
      shortfall is not guarded), every enabled class represented, only pool
      characters, and no repeats in unique mode. */
  predicate Acceptable(pw: string, sel: Selection, n: int, unique: bool) {
    var k := |sel.Classes()|;
    && |pw| == (if n < k then k else n)
    && CoversClasses(pw, sel)
    && (forall ch :: ch in pw ==> ch in Pool(sel))
    && (unique ==> Distinct(pw))
  }

  method Generate(length: Option<int>, sel: Selection, unique: bool) returns (r: Report)
    // an unparsable length is reported before anything else
    ensures r.outcome == Rejected(InvalidLength) <==> length.None?
    ensures length.None? ==> r.warnings == []
    // the two advisories never stop generation
    ensures length.Some? ==> (WeakLength in r.warnings <==> length.value < 12)
    ensures length.Some? ==> (LowDiversity in r.warnings <==> sel.Count() < 3)
    ensures Distinct(r.warnings)
    ensures |r.warnings| == 2 ==> r.warnings == [WeakLength, LowDiversity]
    ensures r.outcome == Rejected(NoClassSelected) <==> length.Some? && sel.Classes() == []
    ensures r.outcome.Rejected? && r.outcome.error.PoolTooSmall? <==>
              length.Some? && sel.Classes() != [] && unique && length.value > |Pool(sel)|
    ensures r.outcome.Rejected? && r.outcome.error.PoolTooSmall? ==>
              r.outcome.error.size == |Pool(sel)| == |Elements(Pool(sel))|
    ensures r.outcome.SampleRaised? <==>
              length.Some? && unique && 0 < |sel.Classes()| && length.value < |sel.Classes()|
    ensures r.outcome.Generated? <==>
              length.Some? && sel.Classes() != [] &&
              (unique ==> |sel.Classes()| <= length.value <= |Pool(sel)|)
    ensures r.outcome.Generated? ==>
              length.Some? && Acceptable(r.outcome.password, sel, length.value, unique)
  {
    if length.None? {
      return Report([], Rejected(InvalidLength));
    }
    var n := length.value;
    var warnings := Advisories(n, sel.Count());

    var charMap := BuildCharMap(sel);
    assert |charMap| == |sel.Classes()|;
    if charMap == [] {
      return Report(warnings, Rejected(NoClassSelected));
    }
    var fullPool := Concat(charMap);
    assert fullPool == Pool(sel);
    PoolHasNoRepeats(sel);

    if unique && n > |fullPool| {
      return Report(warnings, Rejected(PoolTooSmall(|fullPool|)));
    }
    var outcome := Assemble(charMap, fullPool, n, unique, sel);
    return Report(warnings, outcome);
  }

  /** The two warning dialogs, in the order they are shown. */
  method Advisories(length: int, selectedTypes: nat) returns (warnings: seq<Warning>)
    ensures WeakLength in warnings <==> length < 12
    ensures LowDiversity in warnings <==> selectedTypes < 3
    ensures Distinct(warnings)
    ensures |warnings| == 2 ==> warnings == [WeakLength, LowDiversity]
  {
    warnings := [];
    if length < 12 {
      warnings := warnings + [WeakLength];
    }
    if selectedTypes < 3 {
      warnings := warnings + [LowDiversity];
    }
  }

  /** `char_map`, appended to box by box in the order upper, lower, digits,
      symbols. */
  method BuildCharMap(sel: Selection) returns (charMap: seq<string>)
    ensures charMap == ClassStrings(sel.Classes())
  {
    charMap := [];
    if sel.upper { charMap := charMap + [AsciiUppercase]; }
    if sel.lower { charMap := charMap + [AsciiLowercase]; }
    if sel.digits { charMap := charMap + [DigitChars]; }
    if sel.symbols { charMap := charMap + [Punctuation]; }
  }

  /** Seeding, filling and shuffling, once every check has passed. */
  method Assemble(charMap: seq<string>, fullPool: string, n: int, unique: bool, ghost sel: Selection)
    returns (o: Outcome)
    requires charMap == ClassStrings(sel.Classes()) != []
    requires fullPool == Pool(sel)
    requires unique ==> n <= |fullPool|
    ensures o.SampleRaised? <==> unique && n < |charMap|
    ensures !o.Rejected?
    ensures o.Generated? ==> Acceptable(o.password, sel, n, unique)
  {
    var drawn := SeedAndFill(charMap, fullPool, n, unique, sel);
    if drawn.None? {
      return SampleRaised;
    }
    var passwordList := drawn.value;
    var a := new char[|passwordList|](i requires 0 <= i < |passwordList| => passwordList[i]);
    assert a[..] == passwordList;
    Shuffle(a);
    var finalPassword := a[..];
    AcceptableUnderPermutation(passwordList, finalPassword, sel, n, unique);
    return Generated(finalPassword);
  }

  /** The password list before the shuffle: the seeds followed by the fill;
      `None` where `random.sample` raises for a negative count. */
  method SeedAndFill(charMap: seq<string>, fullPool: string, n: int, unique: bool, ghost sel: Selection)
    returns (drawn: Option<string>)
    requires charMap == ClassStrings(sel.Classes()) != []
    requires fullPool == Pool(sel)
    requires unique ==> n <= |fullPool|
    ensures drawn.None? <==> unique && n < |charMap|
    ensures drawn.Some? ==> Acceptable(drawn.value, sel, n, unique)
  {
    ghost var cs := sel.Classes();
    // one character from each enabled class
    var passwordList := DrawSeeds(charMap);
    ghost var seeds := passwordList;
    SeedsHaveNoRepeats(cs, seeds);
    assert forall ch :: ch in seeds ==> ch in fullPool;

    var remaining := n - |passwordList|;
    if unique {
      if remaining < 0 {
        return None;
      }
      var availablePool := Elements(fullPool) - Elements(passwordList);
      AvailableAfterSeeds(sel, seeds);
      var sample := Sample(availablePool, remaining);
      DistinctAppend(passwordList, sample);
      passwordList := passwordList + sample;
    } else {
      var fill := FillWithReplacement(fullPool, remaining);
      passwordList := passwordList + fill;
    }
    forall c | sel.Enabled(c) ensures exists ch :: ch in passwordList && ch in Chars(c) {
      var i :| 0 <= i < |cs| && cs[i] == c;
      assert passwordList[i] == seeds[i];
    }
    return Some(passwordList);
  }

  /** Shuffling keeps a password acceptable: length, class coverage, pool
      membership and distinctness depend only on the multiset of characters. */
  lemma AcceptableUnderPermutation(s: string, t: string, sel: Selection, n: int, unique: bool)
    requires multiset(s) == multiset(t)
    requires Acceptable(s, sel, n, unique)
    ensures Acceptable(t, sel, n, unique)
  {
    assert |t| == |multiset(t)| == |multiset(s)| == |s|;
    assert forall ch :: ch in t <==> ch in s by {
      forall ch ensures ch in t <==> ch in s {
        assert ch in t <==> ch in multiset(t);
        assert ch in s <==> ch in multiset(s);
      }
    }
    DistinctUnderPermutation(s, t);
  }

  /** Seeds drawn one per class from distinct classes never coincide. */
  lemma SeedsHaveNoRepeats(cs: seq<CharClass>, seeds: string)
    requires Distinct(cs)
    requires |seeds| == |cs|
    requires forall i :: 0 <= i < |cs| ==> seeds[i] in Chars(cs[i])
    ensures Distinct(seeds)
  {
    forall i, j | 0 <= i < j < |seeds| ensures seeds[i] != seeds[j] {
      ClassesDisjoint(cs[i], cs[j], seeds[i]);
    }
  }

  /** Once the seeds are drawn, `set(full_pool) - set(password_list)` keeps
      exactly `len(full_pool) - k` characters, so a length that passed the
      uniqueness check never asks `random.sample` for more than it has. */
  lemma AvailableAfterSeeds(sel: Selection, seeds: string)
    requires |seeds| == |sel.Classes()|
    requires forall i :: 0 <= i < |seeds| ==> seeds[i] in Chars(sel.Classes()[i])
    ensures Elements(seeds) <= Elements(Pool(sel))
    ensures |Elements(Pool(sel)) - Elements(seeds)| == |Pool(sel)| - |seeds|
  {
    var cs := sel.Classes();
    forall ch | ch in seeds ensures ch in Pool(sel) {
      var i :| 0 <= i < |seeds| && seeds[i] == ch;
      PoolMembership(sel, ch);
    }
    SeedsHaveNoRepeats(cs, seeds);
    DistinctElementsCount(seeds);
    PoolHasNoRepeats(sel);
    AvailableSize(Elements(Pool(sel)), Elements(seeds));
  }

  /** Removing a subset leaves the difference of the sizes. */
  lemma AvailableSize<T>(whole: set<T>, part: set<T>)
    requires part <= whole
    ensures |whole - part| == |whole| - |part|
  {
  }
}
