/** Version strings as catpip handles them: the three-component expansion of
    `expand_version` and the numeric comparison that catpip delegates to the
    `version_parser` library, abstracted here as a lexicographic comparison of
    three natural numbers. */
module Versions {

  /** The wildcard constraint: "any version". */
  const Wildcard: string := "*"

  /** What the wildcard expands to. */
  const Sentinel: string := "9999999.0.0"

  /** Number of '.' characters in `s` (Python's `str.count('.')`). */
  function DotCount(s: string): nat {
    multiset(s)['.']
  }

  /** `n` copies of ".0". */
  function Padding(n: nat): string {
    if n == 0 then "" else Padding(n - 1) + ".0"
  }

  /** The value `expand_version` returns: the sentinel for the wildcard, otherwise
      the input with ".0" appended until it has two dots. */
  function Expanded(v: string): string {
    if v == Wildcard then Sentinel
    else if DotCount(v) >= 2 then v
    else v + Padding(2 - DotCount(v))
  }

  /** `expand_version`: the loop `for i in range(fields + 1, 3)` appends one ".0"
      per iteration. */
  method ExpandVersion(version: string) returns (r: string)
    ensures r == Expanded(version)
  {
    if version == "*" {
      return "9999999.0.0";
    }
    var fields := DotCount(version);
    r := version;
    var i := fields + 1;
    while i < 3
      invariant fields + 1 <= i
      invariant i <= 3 || i == fields + 1
      invariant r == version + Padding(i - (fields + 1))
    {
      r := r + ".0";
      i := i + 1;
    }
    assert fields >= 2 ==> r == version;
  }

  /** `n` copies of ".0" are `2 * n` characters, alternating '.' and '0'. */
  lemma {:induction false} PaddingChars(n: nat)
    ensures |Padding(n)| == 2 * n
    ensures forall i :: 0 <= i < |Padding(n)| ==> Padding(n)[i] == if i % 2 == 0 then '.' else '0'
  {
    if n > 0 {
      var p := Padding(n - 1);
      PaddingChars(n - 1);
      assert Padding(n) == p + ".0";
      forall i | 0 <= i < |p + ".0"| ensures (p + ".0")[i] == if i % 2 == 0 then '.' else '0' {
        if i >= |p| {
          assert i == 2 * (n - 1) || i == 2 * (n - 1) + 1;
        }
      }
    }
  }

  /** `n` copies of ".0" hold `n` dots. */
  lemma {:induction false} PaddingDots(n: nat)
    ensures DotCount(Padding(n)) == n
  {
    if n > 0 {
      PaddingDots(n - 1);
      assert multiset(Padding(n)) == multiset(Padding(n - 1)) + multiset(".0");
    }
  }

  /** What `expand_version` promises: the wildcard becomes the sentinel; any
      other input is kept as a prefix (never truncated), only "." and "0"
      alternate after it, exactly one ".0" per missing dot is added, and the
      result has two dots, or the input's own count when that is larger (the
      input is then returned unchanged). */
  lemma ExpandedShape(v: string)
    ensures v == Wildcard ==> Expanded(v) == Sentinel
    ensures v != Wildcard ==> v <= Expanded(v)
    ensures v != Wildcard ==> DotCount(Expanded(v)) == if DotCount(v) >= 2 then DotCount(v) else 2
    ensures v != Wildcard && DotCount(v) >= 2 ==> Expanded(v) == v
    ensures v != Wildcard ==> forall i :: |v| <= i < |Expanded(v)| ==>
              Expanded(v)[i] == if (i - |v|) % 2 == 0 then '.' else '0'
    ensures v != Wildcard && DotCount(v) < 2 ==> |Expanded(v)| == |v| + 2 * (2 - DotCount(v))
  {
    if v != Wildcard && DotCount(v) < 2 {
      var n := 2 - DotCount(v);
      var p := Padding(n);
      assert Expanded(v) == v + p;
      assert DotCount(v + p) == 2 by {
        PaddingDots(n);
        assert multiset(v + p) == multiset(v) + multiset(p);
      }
      PaddingChars(n);
      assert v <= v + p;
      forall i | |v| <= i < |v + p|
        ensures (v + p)[i] == if (i - |v|) % 2 == 0 then '.' else '0'
      {
        assert (v + p)[i] == p[i - |v|];
      }
    }
  }

  /** The cases the unit tests check: "1.2" and "1" gain the missing components. */
  lemma ExpandedExamples()
    ensures Expanded("1.2") == "1.2.0"
    ensures Expanded("1") == "1.0.0"
    ensures Expanded("1.2.3") == "1.2.3"
    ensures Expanded("*") == "9999999.0.0"
  {
    assert Expanded("1.2") == "1.2.0" by {
      assert multiset("1.2") == multiset{'1', '.', '2'};
      assert Padding(1) == ".0";
    }
    assert Expanded("1") == "1.0.0" by {
      assert multiset("1") == multiset{'1'};
      assert Padding(2) == ".0.0";
    }
    assert Expanded("1.2.3") == "1.2.3" by {
      assert multiset("1.2.3") == multiset{'1', '.', '2', '.', '3'};
    }
  }

  /** The sentinel is an ordinary version: the wildcard expands to the same
      string as the explicit version "9999999", so explicit versions from
      10000000 up would compare above it. Wildcard dominance therefore rests
      on the merge testing for "*" before it compares. */
  lemma SentinelIsFinite()
    ensures Expanded(Wildcard) == Expanded("9999999")
  {
    assert DotCount("9999999") == 0 by {
      assert multiset("9999999") == multiset{'9', '9', '9', '9', '9', '9', '9'};
    }
    assert Padding(2) == ".0.0" by {
      assert Padding(1) == ".0";
    }
    assert Expanded("9999999") == "9999999" + ".0.0";
  }

  // ---------------------------------------------------------------------------
  // Numeric reading of a version string

  /** The '.'-separated fields of `s`. */
  function Fields(s: string): (r: seq<string>)
    ensures |r| > 0
    decreases |s|
  {
    if s == [] then [""]
    else
      var init := Fields(s[..|s| - 1]);
      if s[|s| - 1] == '.' then init + [""]
      else init[..|init| - 1] + [init[|init| - 1] + [s[|s| - 1]]]
  }

  predicate AllDigits(f: string) {
    forall i :: 0 <= i < |f| ==> '0' <= f[i] <= '9'
  }

  predicate IsNumeral(f: string) {
    |f| > 0 && AllDigits(f)
  }

  /** An explicit version: one to three numeric fields. */
  predicate Numeric(v: string) {
    |Fields(v)| <= 3 && forall j :: 0 <= j < |Fields(v)| ==> IsNumeral(Fields(v)[j])
  }

  /** A version the merge accepts: the wildcard or an explicit version. */
  predicate WellFormed(v: string) {
    v == Wildcard || Numeric(v)
  }

  /** Decimal value of a string of digits. */
  function Value(f: string): nat
    requires AllDigits(f)
    decreases |f|
  {
    if f == [] then 0
    else 10 * Value(f[..|f| - 1]) + (f[|f| - 1] as int - '0' as int)
  }

  lemma DotCountSnoc(s: string, c: char)
    ensures DotCount(s + [c]) == DotCount(s) + if c == '.' then 1 else 0
  {
    assert multiset(s + [c]) == multiset(s) + multiset{c};
  }

  /** One step of `Fields`: a '.' opens a new field, any other character
      extends the last one. */
  lemma FieldsSnoc(s: string, c: char)
    ensures Fields(s + [c]) ==
      if c == '.' then Fields(s) + [""]
      else Fields(s)[..|Fields(s)| - 1] + [Fields(s)[|Fields(s)| - 1] + [c]]
  {
    assert (s + [c])[..|s|] == s;
  }

  lemma {:induction false} FieldsCount(s: string)
    ensures |Fields(s)| == DotCount(s) + 1
    decreases |s|
  {
    if s != [] {
      var n := |s| - 1;
      assert s == s[..n] + [s[n]];
      FieldsCount(s[..n]);
      DotCountSnoc(s[..n], s[n]);
    }
  }

  lemma FieldsAppendZero(s: string)
    ensures Fields(s + ".0") == Fields(s) + ["0"]
  {
    FieldsSnoc(s, '.');
    assert s + ".0" == (s + ".") + ['0'];
    FieldsSnoc(s + ".", '0');
    assert [] + ['0'] == "0";
  }

  lemma {:induction false} FieldsPadding(s: string, n: nat)
    ensures Fields(s) <= Fields(s + Padding(n))
    ensures |Fields(s + Padding(n))| == |Fields(s)| + n
    ensures forall j :: |Fields(s)| <= j < |Fields(s + Padding(n))| ==> Fields(s + Padding(n))[j] == "0"
  {
    if n == 0 {
      assert s + Padding(0) == s;
    } else {
      FieldsPadding(s, n - 1);
      assert s + Padding(n) == (s + Padding(n - 1)) + ".0";
      FieldsAppendZero(s + Padding(n - 1));
    }
  }

  lemma WildcardIsNotNumeric()
    ensures !Numeric(Wildcard)
  {
    assert Fields(Wildcard) == ["*"] by {
      FieldsSnoc([], '*');
      assert [] + ['*'] == Wildcard;
    }
    assert !IsNumeral(Fields(Wildcard)[0]);
  }

  lemma PaddedFields(v: string, n: nat)
    requires Numeric(v) && |Fields(v)| + n == 3
    ensures ThreeFields(v + Padding(n))
    ensures Fields(v) <= Fields(v + Padding(n))
    ensures forall j :: |Fields(v)| <= j < 3 ==> Fields(v + Padding(n))[j] == "0"
  {
    FieldsPadding(v, n);
    var f, g := Fields(v), Fields(v + Padding(n));
    assert IsNumeral("0");
    forall j | 0 <= j < 3 ensures IsNumeral(g[j]) {
      if j < |f| {
        assert g[j] == f[j];
      }
    }
  }

  /** Expanding an explicit version gives exactly three numeric fields, its own
      first (the rest are zeros, by `PaddedFields`). */
  lemma ExpandedFields(v: string)
    requires Numeric(v)
    ensures v != Wildcard
    ensures ThreeFields(Expanded(v))
    ensures Fields(v) <= Fields(Expanded(v))
  {
    WildcardIsNotNumeric();
    FieldsCount(v);
    var n := 2 - DotCount(v);
    assert Expanded(v) == v + Padding(n) by {
      assert v + Padding(0) == v;
    }
    PaddedFields(v, n);
  }

  /** A string the version parser reads as three numbers. */
  predicate ThreeFields(x: string) {
    |Fields(x)| == 3 && forall j :: 0 <= j < 3 ==> IsNumeral(Fields(x)[j])
  }

  /** The three numbers of such a string: `Version(x)`. */
  function Triple(x: string): (nat, nat, nat)
    requires ThreeFields(x)
  {
    var f := Fields(x);
    (Value(f[0]), Value(f[1]), Value(f[2]))
  }

  predicate LexLess(a: (nat, nat, nat), b: (nat, nat, nat)) {
    a.0 < b.0 || (a.0 == b.0 && (a.1 < b.1 || (a.1 == b.1 && a.2 < b.2)))
  }

  /** `Version(x) < Version(y)` on expanded strings. */
  predicate ParsedLess(x: string, y: string)
    requires ThreeFields(x) && ThreeFields(y)
  {
    LexLess(Triple(x), Triple(y))
  }

  /** The three numbers an explicit version stands for, read off its expansion. */
  function Key(v: string): (nat, nat, nat)
    requires Numeric(v)
  {
    ExpandedFields(v);
    Triple(Expanded(v))
  }

  /** `Version(expand_version(a)) < Version(expand_version(b))`. */
  predicate VersionLess(a: string, b: string)
    requires Numeric(a) && Numeric(b)
  {
    LexLess(Key(a), Key(b))
  }

  /** The comparison is a strict total order up to numeric equality. */
  lemma VersionLessIsStrictTotal(a: string, b: string, c: string)
    requires Numeric(a) && Numeric(b) && Numeric(c)
    ensures !VersionLess(a, a)
    ensures VersionLess(a, b) ==> !VersionLess(b, a)
    ensures VersionLess(a, b) && VersionLess(b, c) ==> VersionLess(a, c)
    ensures !VersionLess(a, b) && !VersionLess(b, a) ==> Key(a) == Key(b)
  {
  }

  /** `now` is at least as high as `before`: the wildcard is above everything,
      and nothing explicit is above the wildcard. */
  predicate Dominates(now: string, before: string)
    requires WellFormed(now) && WellFormed(before)
  {
    now == Wildcard || (before != Wildcard && !VersionLess(now, before))
  }

  lemma DominatesOrder(a: string, b: string, c: string)
    requires WellFormed(a) && WellFormed(b) && WellFormed(c)
    ensures Dominates(a, a)
    ensures Dominates(a, b) && Dominates(b, c) ==> Dominates(a, c)
    ensures Dominates(a, Wildcard) ==> a == Wildcard
  {
    if a != Wildcard && b != Wildcard && c != Wildcard {
      VersionLessIsStrictTotal(a, b, c);
      VersionLessIsStrictTotal(c, b, a);
    }
  }

  /** A '.' followed by a non-dot character adds a one-character field. */
  lemma FieldsAppendField(s: string, d: char)
    requires d != '.'
    ensures Fields(s + ['.', d]) == Fields(s) + [[d]]
  {
    FieldsSnoc(s, '.');
    FieldsSnoc(s + ['.'], d);
    assert s + ['.', d] == (s + ['.']) + [d];
    assert [] + [d] == [d];
  }

  lemma FieldsOfOneDigitVersions(a: char, b: char, c: char)
    requires '0' <= a <= '9' && '0' <= b <= '9' && '0' <= c <= '9'
    ensures Fields([a, '.', b, '.', c]) == [[a], [b], [c]]
    ensures DotCount([a, '.', b, '.', c]) == 2
  {
    assert Fields([a]) == [[a]] by {
      FieldsSnoc([], a);
      assert [] + [a] == [a];
    }
    assert Fields([a, '.', b]) == [[a], [b]] by {
      FieldsAppendField([a], b);
      assert [a] + ['.', b] == [a, '.', b];
    }
    assert Fields([a, '.', b, '.', c]) == [[a], [b], [c]] by {
      FieldsAppendField([a, '.', b], c);
      assert [a, '.', b] + ['.', c] == [a, '.', b, '.', c];
    }
    FieldsCount([a, '.', b, '.', c]);
  }

  lemma ValueOfDigit(d: char)
    requires '0' <= d <= '9'
    ensures AllDigits([d]) && Value([d]) == d as int - '0' as int
  {
    assert [d][..0] == [];
  }

  /** Keys of concrete three-component versions with one-digit fields. */
  lemma KeyOfOneDigitVersion(a: char, b: char, c: char)
    requires '0' <= a <= '9' && '0' <= b <= '9' && '0' <= c <= '9'
    ensures Numeric([a, '.', b, '.', c])
    ensures Key([a, '.', b, '.', c]) == (a as int - '0' as int, b as int - '0' as int, c as int - '0' as int)
  {
    FieldsOfOneDigitVersions(a, b, c);
    TripleOfDigits([a, '.', b, '.', c], a, b, c);
    KeyOfThreeFields([a, '.', b, '.', c]);
  }

  lemma TripleOfDigits(s: string, a: char, b: char, c: char)
    requires '0' <= a <= '9' && '0' <= b <= '9' && '0' <= c <= '9'
    requires Fields(s) == [[a], [b], [c]]
    ensures ThreeFields(s)
    ensures Triple(s) == (a as int - '0' as int, b as int - '0' as int, c as int - '0' as int)
  {
    ValueOfDigit(a);
    ValueOfDigit(b);
    ValueOfDigit(c);
  }

  /** A version that already has three fields is its own expansion. */
  lemma KeyOfThreeFields(s: string)
    requires ThreeFields(s)
    ensures Numeric(s) && Key(s) == Triple(s)
  {
    FieldsCount(s);
    assert Expanded(s) == s;
  }

}
