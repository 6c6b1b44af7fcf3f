/** `PhoneNumber` of telephoneregex.py: the raw text is matched at its start
    against

        (((\+\d{1,3})|(0)) ?([1-9]+) )?(\d+ ?)+(-\d+)?

    and country code, area code, subscriber number and extension are taken
    from groups 2, 5, 6 and 7, with every non-digit removed.

    `MatchPhone` is a hand-written matcher that follows the backtracking order
    of Python's `re.match` for exactly this pattern, on ASCII digits. */
module Phone {
  import opened Wrappers
  import opened PyText

  predicate IsNonZeroDigit(c: char) {
    '1' <= c <= '9'
  }

  /** Groups 2, 5, 6 and 7 of a successful match (`None` for a group that did
      not take part). */
  datatype PhoneMatch = PhoneMatch(g2: Option<string>, g5: Option<string>, g6: string, g7: Option<string>)

  /** Length of the run of digits starting at `i`. */
  function DigitRun(s: string, i: nat): (n: nat)
    requires i <= |s|
    ensures i + n <= |s| && forall k :: i <= k < i + n ==> IsDigit(s[k])
    ensures AllDigits(s[i..i + n])
    ensures i + n < |s| ==> !IsDigit(s[i + n])
    decreases |s| - i
  {
    if i < |s| && IsDigit(s[i]) then 1 + DigitRun(s, i + 1) else 0
  }

  /** Length of the run of `[1-9]` starting at `i`. */
  function NonZeroRun(s: string, i: nat): (n: nat)
    requires i <= |s|
    ensures i + n <= |s| && forall k :: i <= k < i + n ==> IsNonZeroDigit(s[k])
    ensures i + n < |s| ==> !IsNonZeroDigit(s[i + n])
    decreases |s| - i
  {
    if i < |s| && IsNonZeroDigit(s[i]) then 1 + NonZeroRun(s, i + 1) else 0
  }

  /** Where group 5 starts once group 2 ends at `c`: after the optional space. */
  function AreaStart(s: string, c: nat): (q: nat)
    requires c <= |s|
    ensures c <= q <= |s|
  {
    if c < |s| && s[c] == ' ' then c + 1 else c
  }

  /** With group 2 ending at `c`, the rest of group 1, ` ?([1-9]+) `, spans
      up to `g`, where a digit starts group 6. */
  predicate AreaSpan(s: string, c: nat, g: nat)
    requires c <= |s|
  {
    var q := AreaStart(s, c);
    && q + 1 < g < |s| && s[g - 1] == ' ' && IsDigit(s[g])
    && forall k :: q <= k < g - 1 ==> IsNonZeroDigit(s[k])
  }

  /** The rest of group 1 fits after a group 2 that ends at `c`. */
  ghost predicate AreaFits(s: string, c: nat)
    requires c <= |s|
  {
    exists g :: AreaSpan(s, c, g)
  }

  /** Group 1 fits with group 2 taking the first `c` characters. */
  ghost predicate GroupOneFits(s: string, c: nat) {
    0 < c <= |s| && CountryGroupOk(s[..c]) && AreaFits(s, c)
  }

  /** The rest of group 1 once group 2 ends at `p`: ` ?([1-9]+) `, accepted
      only when group 6 can start right after it (a digit follows); otherwise
      the regex engine backtracks. Yields group 5 and the end of group 1. */
  function AreaAfter(s: string, p: nat): (r: Option<(string, nat)>)
    requires p <= |s|
    ensures r.Some? ==> p < r.value.1 < |s| && IsDigit(s[r.value.1]) && s[r.value.1 - 1] == ' '
    ensures r.Some? ==> AreaGroupOk(r.value.0)
  {
    var q := AreaStart(s, p);
    var e := q + NonZeroRun(s, q);
    if e > q && e + 1 < |s| && s[e] == ' ' && IsDigit(s[e + 1]) then Some((s[q..e], e + 1))
    else None
  }

  /** The rest of group 1 is accepted exactly when it fits, and then group 5
      is the text between the optional space and the space that ends it. */
  lemma AreaAfterFits(s: string, p: nat)
    requires p <= |s|
    ensures AreaAfter(s, p).Some? <==> AreaFits(s, p)
    ensures AreaAfter(s, p).Some? ==>
              var (g5, g) := AreaAfter(s, p).value;
              AreaSpan(s, p, g) && g5 == s[AreaStart(s, p)..g - 1]
  {
    var q := AreaStart(s, p);
    var e := q + NonZeroRun(s, q);
    AreaSpanGreedy(s, p);
    if AreaAfter(s, p).Some? {
      assert AreaSpan(s, p, e + 1);
    }
  }

  /** `[1-9]+` followed by a space cannot stop early or late: the rest of
      group 1 has at most one end. */
  lemma AreaSpanGreedy(s: string, p: nat)
    requires p <= |s|
    ensures forall g :: AreaSpan(s, p, g) ==> g == AreaStart(s, p) + NonZeroRun(s, AreaStart(s, p)) + 1
  {
    var q := AreaStart(s, p);
    var n := NonZeroRun(s, q);
    forall g | AreaSpan(s, p, g)
      ensures g == q + n + 1
    {
      assert !IsNonZeroDigit(s[g - 1]);
    }
  }

  /** The `\+\d{1,3}` branch, trying `k`, `k - 1`, ..., 1 digits in turn. */
  function PlusPrefix(s: string, k: nat): (r: Option<(string, string, nat)>)
    requires 1 + k <= |s| && s[0] == '+' && AllDigits(s[1..1 + k])
    ensures r.Some? ==> 2 <= |r.value.0| <= 1 + k && r.value.0 == s[..|r.value.0|]
    ensures r.Some? ==> |r.value.0| < r.value.2 < |s| && IsDigit(s[r.value.2])
    ensures r.Some? ==> AreaGroupOk(r.value.1)
    decreases k
  {
    if k == 0 then None
    else
      match AreaAfter(s, 1 + k)
      case Some((g5, e)) => Some((s[..1 + k], g5, e))
      case None =>
        assert s[1..k] == s[1..1 + k][..k - 1];
        PlusPrefix(s, k - 1)
  }

  /** With up to `k` digits to try, group 2 is found exactly when some length
      lets the rest of group 1 fit, and it is the longest such length. */
  ghost predicate PlusFound(s: string, k: nat, r: Option<(string, string, nat)>)
    requires 1 + k <= |s|
  {
    && (r.Some? <==> exists c :: 2 <= c <= 1 + k && AreaFits(s, c))
    && (r.Some? ==>
          var (g2, g5, g) := r.value;
          && |g2| <= |s|
          && AreaSpan(s, |g2|, g) && g5 == s[AreaStart(s, |g2|)..g - 1]
          && forall c :: |g2| < c <= 1 + k ==> !AreaFits(s, c))
  }

  /** Trying `k`, `k - 1`, ... digits takes the longest length that fits. */
  lemma {:induction false} PlusPrefixLongest(s: string, k: nat)
    requires 1 + k <= |s| && s[0] == '+' && AllDigits(s[1..1 + k])
    ensures PlusFound(s, k, PlusPrefix(s, k))
    decreases k
  {
    if k > 0 {
      AreaAfterFits(s, 1 + k);
      if AreaAfter(s, 1 + k).Some? {
        PlusPrefixHit(s, k);
      } else {
        assert s[1..k] == s[1..1 + k][..k - 1];
        assert AllDigits(s[1..k]);
        PlusPrefixLongest(s, k - 1);
        assert PlusFound(s, k - 1, PlusPrefix(s, k - 1));
        PlusPrefixMiss(s, k);
      }
    }
  }

  lemma PlusPrefixHit(s: string, k: nat)
    requires 1 + k <= |s| && s[0] == '+' && AllDigits(s[1..1 + k]) && k > 0
    requires AreaAfter(s, 1 + k).Some?
    ensures PlusFound(s, k, PlusPrefix(s, k))
  {
    AreaAfterFits(s, 1 + k);
    var (g5, e) := AreaAfter(s, 1 + k).value;
    assert PlusPrefix(s, k) == Some((s[..1 + k], g5, e));
    assert |s[..1 + k]| == 1 + k;
    assert AreaFits(s, 1 + k);
  }

  lemma PlusPrefixMiss(s: string, k: nat)
    requires 1 + k <= |s| && s[0] == '+' && AllDigits(s[1..1 + k]) && k > 0
    requires AreaAfter(s, 1 + k).None? && AllDigits(s[1..k])
    requires PlusFound(s, k - 1, PlusPrefix(s, k - 1))
    ensures PlusFound(s, k, PlusPrefix(s, k))
  {
    AreaAfterFits(s, 1 + k);
    assert PlusPrefix(s, k) == PlusPrefix(s, k - 1);
    assert !AreaFits(s, 1 + k);
    if PlusPrefix(s, k - 1).Some? {
      var (g2, g5, g) := PlusPrefix(s, k - 1).value;
      forall c | |g2| < c <= 1 + k
        ensures !AreaFits(s, c)
      {
        if c <= k {
        }
      }
    } else {
      forall c | 2 <= c <= 1 + k
        ensures !AreaFits(s, c)
      {
        if c <= k {
        }
      }
    }
  }

  function Min(a: nat, b: nat): nat {
    if a < b then a else b
  }

  /** The optional group 1: groups 2 and 5 and the position where group 6
      starts, or `None` when group 1 is skipped. */
  function Prefix(s: string): (r: Option<(string, string, nat)>)
    ensures r.Some? ==> r.value.2 < |s| && IsDigit(s[r.value.2])
    ensures r.Some? ==> |r.value.1| > 0
    ensures r.Some? ==> CountryGroupOk(r.value.0) && AreaGroupOk(r.value.1)
    ensures r.Some? ==> |s| > 0 && (s[0] == '0' || s[0] == '+')
  {
    if |s| == 0 then None
    else if s[0] == '0' then
      match AreaAfter(s, 1)
      case Some((g5, e)) => Some(("0", g5, e))
      case None => None
    else if s[0] == '+' then PlusBranch(s)
    else None
  }

  /** Group 1 is taken whenever it fits, with the longest group 2 that lets
      it fit; groups 2 and 5 are the text at their places. */
  ghost predicate PrefixFound(s: string, r: Option<(string, string, nat)>) {
    && (r.Some? <==> exists c :: GroupOneFits(s, c))
    && (r.Some? ==>
          var (g2, g5, g) := r.value;
          && |g2| <= |s| && g2 == s[..|g2|]
          && GroupOneFits(s, |g2|) && (forall c :: |g2| < c ==> !GroupOneFits(s, c))
          && AreaSpan(s, |g2|, g) && g5 == s[AreaStart(s, |g2|)..g - 1])
  }

  lemma PrefixLongest(s: string)
    ensures PrefixFound(s, Prefix(s))
  {
    if |s| > 0 && s[0] == '0' {
      ZeroCountry(s);
      AreaAfterFits(s, 1);
      if AreaAfter(s, 1).Some? {
        assert s[..1] == "0";
        assert GroupOneFits(s, 1);
      }
    } else if |s| > 0 && s[0] == '+' {
      PlusBranchLongest(s);
    } else if |s| > 0 {
      NoCountry(s);
    }
  }

  /** After a leading `0`, group 2 can only be that `0`. */
  lemma ZeroCountry(s: string)
    requires |s| > 0 && s[0] == '0'
    ensures forall c :: 0 < c <= |s| ==> (CountryGroupOk(s[..c]) <==> c == 1)
  {
    forall c | 0 < c <= |s|
      ensures CountryGroupOk(s[..c]) <==> c == 1
    {
      assert s[..c][0] == '0';
      if c == 1 {
        assert s[..c] == "0";
      }
    }
  }

  /** Without a leading `0` or `+`, group 2 cannot match. */
  lemma NoCountry(s: string)
    requires |s| > 0 && s[0] != '0' && s[0] != '+'
    ensures forall c :: 0 < c <= |s| ==> !CountryGroupOk(s[..c])
  {
    forall c | 0 < c <= |s|
      ensures !CountryGroupOk(s[..c])
    {
      assert s[..c][0] == s[0];
    }
  }

  /** After a leading `+`, group 2 can take one up to three of the digits
      that follow. */
  lemma PlusCountry(s: string)
    requires |s| > 0 && s[0] == '+'
    ensures forall c :: 0 < c <= |s| ==> (CountryGroupOk(s[..c]) <==> 2 <= c <= 1 + Min(3, DigitRun(s, 1)))
  {
    var n := DigitRun(s, 1);
    forall c | 0 < c <= |s|
      ensures CountryGroupOk(s[..c]) <==> 2 <= c <= 1 + Min(3, n)
    {
      var g := s[..c];
      assert g[0] == '+';
      assert g[1..] == s[1..c];
      if 2 <= c <= 1 + Min(3, n) {
        forall j | 0 <= j < c - 1
          ensures IsDigit(s[1..c][j])
        {
          assert s[1..c][j] == s[1 + j];
        }
      }
    }
  }

  /** The `\+\d{1,3}` alternative, starting with as many digits as it may. */
  function PlusBranch(s: string): (r: Option<(string, string, nat)>)
    requires |s| > 0 && s[0] == '+'
    ensures r.Some? ==> r.value.2 < |s| && IsDigit(s[r.value.2])
    ensures r.Some? ==> CountryGroupOk(r.value.0) && AreaGroupOk(r.value.1)
  {
    var k := Min(3, DigitRun(s, 1));
    var digits := s[1..1 + k];
    assert AllDigits(digits) by {
      forall j | 0 <= j < k
        ensures IsDigit(digits[j])
      {
        assert digits[j] == s[1 + j];
      }
    }
    var r := PlusPrefix(s, k);
    CountryOfPlusPrefix(s, k, r);
    r
  }

  lemma PlusBranchLongest(s: string)
    requires |s| > 0 && s[0] == '+'
    ensures PrefixFound(s, PlusBranch(s))
  {
    var k := Min(3, DigitRun(s, 1));
    var digits := s[1..1 + k];
    assert AllDigits(digits) by {
      forall j | 0 <= j < k
        ensures IsDigit(digits[j])
      {
        assert digits[j] == s[1 + j];
      }
    }
    PlusPrefixLongest(s, k);
    PlusCountry(s);
    assert forall c: nat :: GroupOneFits(s, c) <==> 2 <= c <= 1 + k && AreaFits(s, c);
  }

  lemma CountryOfPlusPrefix(s: string, k: nat, r: Option<(string, string, nat)>)
    requires 1 + k <= |s| && s[0] == '+' && AllDigits(s[1..1 + k]) && k <= 3
    requires r.Some? ==> 2 <= |r.value.0| <= 1 + k && r.value.0 == s[..|r.value.0|]
    ensures r.Some? ==> CountryGroupOk(r.value.0)
  {
    if r.Some? {
      var g2 := r.value.0;
      forall j | 0 <= j < |g2| - 1
        ensures IsDigit(g2[1..][j])
      {
        assert g2[1..][j] == s[1..1 + k][j];
      }
    }
  }

  /** The character at `k` can belong to a run of `(\d+ ?)+` from `p`: a
      digit, or one space right after a digit. */
  predicate RunChar(s: string, p: nat, k: nat)
    requires k < |s|
  {
    IsDigit(s[k]) || (p < k && s[k] == ' ' && IsDigit(s[k - 1]))
  }

  /** `g6` is the last repetition of `(\d+ ?)+` matched from `p`, and the
      run ends at `f`: every character of the run is a digit or one space
      after a digit, the run cannot be extended, and `g6` is one whole
      repetition at its end. */
  predicate SubscriberRun(s: string, p: nat, g6: string, f: nat) {
    && p < f <= |s|
    && (forall k :: p <= k < f ==> RunChar(s, p, k))
    && (f < |s| ==> !RunChar(s, p, f))
    && SubscriberGroupOk(g6) && |g6| <= f - p && g6 == s[f - |g6|..f]
    && (f - |g6| == p || s[f - |g6| - 1] == ' ')
  }

  /** Group 6, `(\d+ ?)+` from `p`: Python keeps only the last repetition.
      Yields that repetition and the end of the group. */
  function Repetitions(s: string, p: nat): (r: (string, nat))
    requires p < |s| && IsDigit(s[p])
    ensures p < r.1 <= |s|
    ensures 0 < |r.0| <= r.1 && r.0 == s[r.1 - |r.0|..r.1]
    ensures SubscriberGroupOk(r.0)
    ensures r.1 < |s| ==> !IsDigit(s[r.1])
    ensures SubscriberRun(s, p, r.0, r.1)
    decreases |s| - p
  {
    var d := p + DigitRun(s, p);
    var e := if d < |s| && s[d] == ' ' then d + 1 else d;
    if e < |s| && IsDigit(s[e]) then
      var r := Repetitions(s, e);
      RunExtends(s, p, d, e, r.0, r.1);
      r
    else
      LastRepetition(s, p, d, e);
      (s[p..e], e)
  }

  /** A run from `e` extends back over the digits from `p` and the space
      after them. */
  lemma RunExtends(s: string, p: nat, d: nat, e: nat, g6: string, f: nat)
    requires p < d <= |s| && forall k :: p <= k < d ==> IsDigit(s[k])
    requires e == d + 1 && d < |s| && s[d] == ' '
    requires SubscriberRun(s, e, g6, f)
    ensures SubscriberRun(s, p, g6, f)
  {
    forall k | p <= k < f
      ensures RunChar(s, p, k)
    {
      if k >= e {
        assert RunChar(s, e, k);
      }
    }
    if f < |s| {
      assert !RunChar(s, e, f);
    }
  }

  lemma LastRepetition(s: string, p: nat, d: nat, e: nat)
    requires p < d <= |s| && forall k :: p <= k < d ==> IsDigit(s[k])
    requires d == |s| || !IsDigit(s[d])
    requires e == (if d < |s| && s[d] == ' ' then d + 1 else d)
    requires e == |s| || !IsDigit(s[e])
    ensures SubscriberGroupOk(s[p..e])
    ensures SubscriberRun(s, p, s[p..e], e)
  {
    var g6 := s[p..e];
    forall k | 0 <= k < |g6|
      ensures IsDigit(g6[k]) || (k == |g6| - 1 && g6[k] == ' ')
    {
      assert g6[k] == s[p + k];
    }
    assert g6[0] == s[p];
  }

  /** Group 7 at `f`: `(-\d+)?` takes `-` and the whole digit run after it,
      and is skipped only when no digit follows a `-` there. */
  predicate ExtensionAt(s: string, f: nat, g7: Option<string>) {
    && f <= |s|
    && match g7
       case None => !(f + 1 < |s| && s[f] == '-' && IsDigit(s[f + 1]))
       case Some(x) => f + |x| <= |s| && x == s[f..f + |x|] && (f + |x| == |s| || !IsDigit(s[f + |x|]))
  }

  /** Group 7, `(-\d+)?` at `p`. */
  function Extension(s: string, p: nat): (r: Option<string>)
    requires p <= |s|
    ensures r.Some? ==> ExtensionGroupOk(r.value)
    ensures ExtensionAt(s, p, r)
  {
    if p + 1 < |s| && s[p] == '-' && IsDigit(s[p + 1]) then
      var n := DigitRun(s, p + 1);
      assert s[p..p + 1 + n][1..] == s[p + 1..p + 1 + n];
      Some(s[p..p + 1 + n])
    else None
  }

  /** Group 2 is the trunk prefix `0` or `+` with one to three digits. */
  predicate CountryGroupOk(g2: string) {
    g2 == "0" || (2 <= |g2| <= 4 && g2[0] == '+' && AllDigits(g2[1..]))
  }

  /** Group 5 is a non-empty run of `[1-9]`. */
  predicate AreaGroupOk(g5: string) {
    |g5| > 0 && forall k :: 0 <= k < |g5| ==> IsNonZeroDigit(g5[k])
  }

  /** Group 6 is digits, possibly followed by one space. */
  predicate SubscriberGroupOk(g6: string) {
    && |g6| > 0 && IsDigit(g6[0])
    && forall k :: 0 <= k < |g6| ==> IsDigit(g6[k]) || (k == |g6| - 1 && g6[k] == ' ')
  }

  /** Group 7 is `-` followed by digits. */
  predicate ExtensionGroupOk(g7: string) {
    |g7| >= 2 && g7[0] == '-' && AllDigits(g7[1..])
  }

  /** What the pattern guarantees about the groups of any match. */
  predicate WellFormed(m: PhoneMatch) {
    && (m.g2.Some? <==> m.g5.Some?)
    && (m.g2.Some? ==> CountryGroupOk(m.g2.value))
    && (m.g5.Some? ==> AreaGroupOk(m.g5.value))
    && SubscriberGroupOk(m.g6)
    && (m.g7.Some? ==> ExtensionGroupOk(m.g7.value))
  }

  /** Where group 6 starts: right after group 1, or at the start of the text. */
  function SubscriberStart(s: string, m: PhoneMatch): nat {
    if m.g2.Some? && m.g5.Some? && |m.g2.value| <= |s| then AreaStart(s, |m.g2.value|) + |m.g5.value| + 1 else 0
  }

  /** Group 1 is taken whenever it fits, with the longest group 2 that lets
      it fit, and groups 2 and 5 are the text at their places. */
  ghost predicate GroupOneAt(s: string, m: PhoneMatch) {
    && (m.g2.Some? <==> exists c :: GroupOneFits(s, c))
    && (m.g2.Some? ==>
          && m.g5.Some? && |m.g2.value| <= |s| && m.g2.value == s[..|m.g2.value|]
          && GroupOneFits(s, |m.g2.value|) && (forall c :: |m.g2.value| < c ==> !GroupOneFits(s, c))
          && AreaSpan(s, |m.g2.value|, SubscriberStart(s, m))
          && m.g5.value == s[AreaStart(s, |m.g2.value|)..SubscriberStart(s, m) - 1])
  }

  /** Group 6 is the last repetition of the run that starts after group 1,
      and group 7 is read where that run ends. */
  ghost predicate RunAt(s: string, m: PhoneMatch) {
    exists f :: SubscriberRun(s, SubscriberStart(s, m), m.g6, f) && ExtensionAt(s, f, m.g7)
  }

  /** The groups of `m` sit where the pattern puts them in `s`. */
  ghost predicate MatchedAt(s: string, m: PhoneMatch) {
    GroupOneAt(s, m) && RunAt(s, m)
  }

  /** `re.match(pattern, raw_string)`. */
  function MatchPhone(s: string): (r: Option<PhoneMatch>)
    ensures r.Some? <==> Prefix(s).Some? || (|s| > 0 && IsDigit(s[0]))
    ensures r.Some? ==> WellFormed(r.value)
    ensures r.Some? && r.value.g2.Some? ==> |s| > 0 && s[0] in "0+"
  {
    match Prefix(s)
    case Some((g2, g5, e)) =>
      var (g6, f) := Repetitions(s, e);
      Some(PhoneMatch(Some(g2), Some(g5), g6, Extension(s, f)))
    case None =>
      if |s| > 0 && IsDigit(s[0]) then
        var (g6, f) := Repetitions(s, 0);
        Some(PhoneMatch(None, None, g6, Extension(s, f)))
      else None
  }

  /** The text matches exactly when it starts with a digit or group 1 fits,
      and then every group sits where the pattern puts it. */
  lemma MatchPhoneSpec(s: string)
    ensures MatchPhone(s).Some? <==> (|s| > 0 && IsDigit(s[0])) || exists c :: GroupOneFits(s, c)
    ensures MatchPhone(s).Some? ==> MatchedAt(s, MatchPhone(s).value)
  {
    PrefixLongest(s);
    if MatchPhone(s).Some? {
      MatchPhoneGroupOne(s);
      MatchPhoneRun(s);
    }
  }

  lemma MatchPhoneGroupOne(s: string)
    requires MatchPhone(s).Some?
    ensures GroupOneAt(s, MatchPhone(s).value)
  {
    var m := MatchPhone(s).value;
    PrefixLongest(s);
    match Prefix(s)
    case Some((g2, g5, e)) =>
      assert m.g2 == Some(g2) && m.g5 == Some(g5);
      assert SubscriberStart(s, m) == e;
    case None =>
      assert m.g2.None?;
  }

  lemma MatchPhoneRun(s: string)
    requires MatchPhone(s).Some?
    ensures RunAt(s, MatchPhone(s).value)
  {
    var m := MatchPhone(s).value;
    PrefixLongest(s);
    match Prefix(s)
    case Some((g2, g5, e)) =>
      assert m == PhoneMatch(Some(g2), Some(g5), Repetitions(s, e).0, Extension(s, Repetitions(s, e).1));
      assert SubscriberStart(s, m) == e;
      RunFrom(s, e, m);
    case None =>
      assert m == PhoneMatch(None, None, Repetitions(s, 0).0, Extension(s, Repetitions(s, 0).1));
      RunFrom(s, 0, m);
  }

  /** Groups 6 and 7 read from `p` lie where `RunAt` puts them. */
  lemma RunFrom(s: string, p: nat, m: PhoneMatch)
    requires p < |s| && IsDigit(s[p]) && SubscriberStart(s, m) == p
    requires m.g6 == Repetitions(s, p).0 && m.g7 == Extension(s, Repetitions(s, p).1)
    ensures RunAt(s, m)
  {
    var f := Repetitions(s, p).1;
    assert SubscriberRun(s, p, m.g6, f) && ExtensionAt(s, f, m.g7);
  }

  /** `MatchedAt` leaves no choice: two well-formed matches that both sit
      where the pattern puts them are the same match, so `MatchPhoneSpec`
      pins down every group `MatchPhone` returns. */
  lemma MatchedAtUnique(s: string, m1: PhoneMatch, m2: PhoneMatch)
    requires WellFormed(m1) && WellFormed(m2)
    requires MatchedAt(s, m1) && MatchedAt(s, m2)
    ensures m1 == m2
  {
    GroupOneUnique(s, m1, m2);
    var p := SubscriberStart(s, m1);
    var f1 :| SubscriberRun(s, p, m1.g6, f1) && ExtensionAt(s, f1, m1.g7);
    var f2 :| SubscriberRun(s, p, m2.g6, f2) && ExtensionAt(s, f2, m2.g7);
    SubscriberRunUnique(s, p, m1.g6, f1, m2.g6, f2);
    ExtensionUnique(s, f1, m1.g7, m2.g7);
  }

  lemma GroupOneUnique(s: string, m1: PhoneMatch, m2: PhoneMatch)
    requires WellFormed(m1) && WellFormed(m2)
    requires GroupOneAt(s, m1) && GroupOneAt(s, m2)
    ensures m1.g2 == m2.g2 && m1.g5 == m2.g5
    ensures SubscriberStart(s, m1) == SubscriberStart(s, m2)
  {
    if m1.g2.Some? {
      var c1, c2 := |m1.g2.value|, |m2.g2.value|;
      assert !(c1 < c2) && !(c2 < c1);
      AreaSpanGreedy(s, c1);
      assert SubscriberStart(s, m1) == SubscriberStart(s, m2);
    }
  }

  /** A run from `p` has one end, and its last repetition is determined. */
  lemma SubscriberRunUnique(s: string, p: nat, g1: string, f1: nat, g2: string, f2: nat)
    requires SubscriberRun(s, p, g1, f1) && SubscriberRun(s, p, g2, f2)
    ensures f1 == f2 && g1 == g2
  {
    RunEndsFirst(s, p, g1, f1, g2, f2);
    RunEndsFirst(s, p, g2, f2, g1, f1);
    LastRepetitionLongest(s, p, g1, g2, f1);
    LastRepetitionLongest(s, p, g2, g1, f1);
  }

  lemma RunEndsFirst(s: string, p: nat, g1: string, f1: nat, g2: string, f2: nat)
    requires SubscriberRun(s, p, g1, f1) && SubscriberRun(s, p, g2, f2)
    ensures f2 <= f1
  {
    if f1 < |s| {
      assert !RunChar(s, p, f1);
    }
  }

  lemma LastRepetitionLongest(s: string, p: nat, g1: string, g2: string, f: nat)
    requires SubscriberRun(s, p, g1, f) && SubscriberRun(s, p, g2, f)
    ensures |g2| <= |g1|
  {
    if f - |g1| > p {
      var k := f - |g1| - 1;
      assert s[k] == ' ';
      forall j | f - |g2| <= j < f - 1
        ensures IsDigit(s[j])
      {
        assert s[j] == g2[j - (f - |g2|)];
      }
    }
  }

  /** Group 7 at a given place is determined. */
  lemma ExtensionUnique(s: string, f: nat, x1: Option<string>, x2: Option<string>)
    requires x1.Some? ==> ExtensionGroupOk(x1.value)
    requires x2.Some? ==> ExtensionGroupOk(x2.value)
    requires ExtensionAt(s, f, x1) && ExtensionAt(s, f, x2)
    ensures x1 == x2
  {
    ExtensionAtIsExtension(s, f, x1);
    ExtensionAtIsExtension(s, f, x2);
  }

  /** The converse of `Extension`'s contract: any well-formed group 7 that
      sits at `f` is the one `Extension` reads there. */
  lemma ExtensionAtIsExtension(s: string, f: nat, g7: Option<string>)
    requires ExtensionAt(s, f, g7) && (g7.Some? ==> ExtensionGroupOk(g7.value))
    ensures g7 == Extension(s, f)
  {
    if g7.Some? {
      var x := g7.value;
      forall j | f + 1 <= j < f + |x|
        ensures IsDigit(s[j])
      {
        assert s[j] == x[1..][j - f - 1];
      }
      assert s[f] == x[0] && IsDigit(s[f + 1]);
      var n := DigitRun(s, f + 1);
      if f + 1 + n < |s| {
        assert !IsDigit(s[f + 1 + n]);
      }
      assert f + |x| == |s| || !IsDigit(s[f + |x|]);
      assert |x| == 1 + n;
    }
  }

  /** `_whitespacekiller`: `re.sub(r"\D", "", string)`. */
  function WhitespaceKiller(s: string): (r: string)
    ensures AllDigits(r) && |r| <= |s|
  {
    if |s| == 0 then []
    else if IsDigit(s[0]) then [s[0]] + WhitespaceKiller(s[1..])
    else WhitespaceKiller(s[1..])
  }

  /** Removing non-digits distributes over concatenation. */
  lemma {:induction false} WhitespaceKillerConcat(a: string, b: string)
    ensures WhitespaceKiller(a + b) == WhitespaceKiller(a) + WhitespaceKiller(b)
    decreases |a|
  {
    if |a| > 0 {
      assert (a + b)[1..] == a[1..] + b;
      WhitespaceKillerConcat(a[1..], b);
    } else {
      assert a + b == b;
    }
  }

  /** Digits are kept, in order: a string of digits is left unchanged. */
  lemma {:induction false} WhitespaceKillerKeepsDigits(s: string)
    requires AllDigits(s)
    ensures WhitespaceKiller(s) == s
    decreases |s|
  {
    if |s| > 0 {
      WhitespaceKillerKeepsDigits(s[1..]);
      assert [s[0]] + s[1..] == s;
    }
  }

  /** Every non-digit is removed: a string without digits becomes empty. */
  lemma {:induction false} WhitespaceKillerDropsNonDigits(s: string)
    requires forall i :: 0 <= i < |s| ==> !IsDigit(s[i])
    ensures WhitespaceKiller(s) == ""
    decreases |s|
  {
    if |s| > 0 {
      WhitespaceKillerDropsNonDigits(s[1..]);
    }
  }

  lemma WhitespaceKillerIdempotent(s: string)
    ensures WhitespaceKiller(WhitespaceKiller(s)) == WhitespaceKiller(s)
  {
    WhitespaceKillerKeepsDigits(WhitespaceKiller(s));
  }

  datatype PhoneNumber = PhoneNumber(countryCode: string, areaCode: string, subscriberNumber: string, extension: string)

  datatype PhoneError =
    | NoMatch              // `self.match` is None: `.group` raises AttributeError
    | CountryGroupMissing  // `"+" in None` raises TypeError
    | ExtensionGroupMissing  // `re.sub(..., None)` raises TypeError

  const DefaultCountryCode: string := "049"
  const DefaultAreaCode: string := "9321"

  /** `_extract_country_code`: the digits after `+`, or Germany's `049`
      when group 2 is the trunk prefix `0`. */
  function ExtractCountryCode(m: PhoneMatch): (r: Result<string, PhoneError>)
    ensures m.g2.None? <==> r == Failure(CountryGroupMissing)
    ensures WellFormed(m) && m.g2 == Some("0") ==> r == Success(DefaultCountryCode)
    ensures WellFormed(m) && m.g2.Some? && m.g2.value != "0" ==> r == Success(m.g2.value[1..])
  {
    match m.g2
    case None => Failure(CountryGroupMissing)
    case Some(g2) =>
      if '+' in g2 then
        CountryDigits(m);
        Success(WhitespaceKiller(g2))
      else Success(DefaultCountryCode)
  }

  /** `_extract_area_code`: group 5, or `9321` when it did not take part. */
  function ExtractAreaCode(m: PhoneMatch): (r: string)
    ensures WellFormed(m) && m.g5.Some? ==> r == m.g5.value
    ensures m.g5.None? ==> r == DefaultAreaCode
  {
    var area := if m.g5.Some? && m.g5.value != "" then m.g5.value else DefaultAreaCode;
    WhitespaceKillerKeepsDigits(DefaultAreaCode);
    AreaDigits(m);
    WhitespaceKiller(area)
  }

  /** `_extract_subscriber_number`: group 6 without its trailing space. */
  function ExtractSubscriberNumber(m: PhoneMatch): (r: string)
    ensures WellFormed(m) ==> |r| > 0 && r == TrimTrailingSpace(m.g6)
  {
    SubscriberDigits(m);
    WhitespaceKiller(m.g6)
  }

  function TrimTrailingSpace(s: string): string {
    if |s| > 0 && s[|s| - 1] == ' ' then s[..|s| - 1] else s
  }

  /** `_extract_extension`: the digits after `-`. */
  function ExtractExtension(m: PhoneMatch): (r: Result<string, PhoneError>)
    ensures m.g7.None? <==> r == Failure(ExtensionGroupMissing)
    ensures WellFormed(m) && m.g7.Some? ==> r == Success(m.g7.value[1..])
  {
    match m.g7
    case None => Failure(ExtensionGroupMissing)
    case Some(g7) =>
      ExtensionDigits(m);
      Success(WhitespaceKiller(g7))
  }

  lemma CountryDigits(m: PhoneMatch)
    ensures WellFormed(m) && m.g2.Some? && m.g2.value != "0" ==> WhitespaceKiller(m.g2.value) == m.g2.value[1..]
  {
    if WellFormed(m) && m.g2.Some? && m.g2.value != "0" {
      DropLeadingSign(m.g2.value);
    }
  }

  lemma AreaDigits(m: PhoneMatch)
    ensures WellFormed(m) && m.g5.Some? ==> WhitespaceKiller(m.g5.value) == m.g5.value
  {
    if WellFormed(m) && m.g5.Some? {
      WhitespaceKillerKeepsDigits(m.g5.value);
    }
  }

  lemma SubscriberDigits(m: PhoneMatch)
    ensures WellFormed(m) ==> WhitespaceKiller(m.g6) == TrimTrailingSpace(m.g6) && |TrimTrailingSpace(m.g6)| > 0
  {
    if WellFormed(m) {
      var t := TrimTrailingSpace(m.g6);
      assert AllDigits(t);
      if t != m.g6 {
        assert m.g6 == t + " ";
        WhitespaceKillerConcat(t, " ");
      }
      WhitespaceKillerKeepsDigits(t);
    }
  }

  lemma ExtensionDigits(m: PhoneMatch)
    ensures WellFormed(m) && m.g7.Some? ==> WhitespaceKiller(m.g7.value) == m.g7.value[1..]
  {
    if WellFormed(m) && m.g7.Some? {
      DropLeadingSign(m.g7.value);
    }
  }

  /** `PhoneNumber(raw_string)`: the four extractions in source order, the
      first exception ending construction. */
  function NewPhoneNumber(raw: string): (r: Result<PhoneNumber, PhoneError>)
    ensures MatchPhone(raw).None? <==> r == Failure(NoMatch)
    ensures MatchPhone(raw).Some? && MatchPhone(raw).value.g2.None? ==> r == Failure(CountryGroupMissing)
    ensures r.Success? <==> MatchPhone(raw).Some? && MatchPhone(raw).value.g2.Some? && MatchPhone(raw).value.g7.Some?
    ensures r.Success? ==>
              && AllDigits(r.value.countryCode) && AllDigits(r.value.areaCode)
              && AllDigits(r.value.subscriberNumber) && AllDigits(r.value.extension)
              && |r.value.countryCode| > 0 && |r.value.areaCode| > 0
              && |r.value.subscriberNumber| > 0 && |r.value.extension| > 0
    ensures r.Success? ==> r.value == Fields(MatchPhone(raw).value)
  {
    match MatchPhone(raw)
    case None => Failure(NoMatch)
    case Some(m) => FromMatch(m)
  }

  /** The number a well-formed match with groups 2 and 7 stands for:
      the digits after `+` (or `049` after the trunk prefix `0`), group 5
      (or `9321` when it is missing), group 6 without its trailing space,
      and the digits after `-`. */
  function Fields(m: PhoneMatch): PhoneNumber
    requires WellFormed(m) && m.g2.Some? && m.g7.Some?
  {
    PhoneNumber(
      if m.g2.value == "0" then DefaultCountryCode else m.g2.value[1..],
      if m.g5.Some? then m.g5.value else DefaultAreaCode,
      TrimTrailingSpace(m.g6),
      m.g7.value[1..])
  }

  /** The extractions of `__init__` once the match succeeded. */
  function FromMatch(m: PhoneMatch): (r: Result<PhoneNumber, PhoneError>)
    ensures m.g2.None? ==> r == Failure(CountryGroupMissing)
    ensures r.Success? <==> m.g2.Some? && m.g7.Some?
    ensures WellFormed(m) && r.Success? ==>
              && AllDigits(r.value.countryCode) && AllDigits(r.value.areaCode)
              && AllDigits(r.value.subscriberNumber) && AllDigits(r.value.extension)
              && |r.value.countryCode| > 0 && |r.value.areaCode| > 0
              && |r.value.subscriberNumber| > 0 && |r.value.extension| > 0
    ensures WellFormed(m) && r.Success? ==> r.value == Fields(m)
  {
    var countryCode :- ExtractCountryCode(m);
    var areaCode := ExtractAreaCode(m);
    var subscriberNumber := ExtractSubscriberNumber(m);
    var extension :- ExtractExtension(m);
    FieldsNonEmpty(m);
    Success(PhoneNumber(countryCode, areaCode, subscriberNumber, extension))
  }

  lemma FieldsNonEmpty(m: PhoneMatch)
    ensures WellFormed(m) ==>
              && |WhitespaceKiller(m.g6)| > 0
              && (m.g5.Some? ==> |WhitespaceKiller(m.g5.value)| > 0)
              && (m.g7.Some? ==> WhitespaceKiller(m.g7.value) == m.g7.value[1..])
  {
    if WellFormed(m) {
      MatchFieldsNonEmpty(m);
    }
  }

  /** Each group the number is built from holds at least one digit. */
  lemma MatchFieldsNonEmpty(m: PhoneMatch)
    requires WellFormed(m)
    ensures m.g5.Some? ==> |WhitespaceKiller(m.g5.value)| > 0
    ensures |WhitespaceKiller(m.g6)| > 0
    ensures m.g7.Some? ==> WhitespaceKiller(m.g7.value) == m.g7.value[1..]
  {
    FirstDigitSurvives(m.g6);
    if m.g5.Some? {
      FirstDigitSurvives(m.g5.value);
    }
    if m.g7.Some? {
      DropLeadingSign(m.g7.value);
    }
  }

  /** A sign followed by digits loses just the sign. */
  lemma DropLeadingSign(g: string)
    requires |g| >= 1 && !IsDigit(g[0]) && AllDigits(g[1..])
    ensures WhitespaceKiller(g) == g[1..]
  {
    WhitespaceKillerKeepsDigits(g[1..]);
  }

  lemma FirstDigitSurvives(s: string)
    requires |s| > 0 && IsDigit(s[0])
    ensures |WhitespaceKiller(s)| > 0
  {
  }

  /** The template text of the `__str__` f-string. */
  const StrTemplate: string := "+{self.country_code} {self.area_code} {self.subscriber_number}{extension}"

  /** `__str__` as written: the `f` prefix sits inside the quotes, so the
      return value is the letter `f` followed by the template text itself,
      the same for every number. */
  function Str(p: PhoneNumber): string {
    "f" + StrTemplate
  }

  /** As written, distinct numbers print the same text, and never the
      number's own digits. */
  lemma StrIsConstant(p: PhoneNumber, q: PhoneNumber)
    ensures Str(p) == Str(q)
    ensures Str(p) != StrIntended(p)
  {
    assert Str(p)[0] == 'f';
    assert StrIntended(p)[0] == '+';
  }

  /** `__str__` with the evidently intended f-string:
      `+<country> <area> <subscriber>` followed by `-<extension>` when the
      extension is not empty. */
  function StrIntended(p: PhoneNumber): string {
    var extension := if p.extension != "" then "-" + p.extension else "";
    "+" + p.countryCode + " " + p.areaCode + " " + p.subscriberNumber + extension
  }

  /** Reads an intended `__str__` text back into its fields. */
  function ParseIntended(text: string): Option<PhoneNumber> {
    if |text| == 0 || text[0] != '+' then None
    else
      var parts := Split(text[1..], ' ');
      if |parts| != 3 then None
      else
        var tail := Split(parts[2], '-');
        if |tail| == 1 then Some(PhoneNumber(parts[0], parts[1], tail[0], ""))
        else if |tail| == 2 then Some(PhoneNumber(parts[0], parts[1], tail[0], tail[1]))
        else None
  }

  lemma DigitsHaveNo(s: string, c: char)
    requires AllDigits(s) && !IsDigit(c)
    ensures c !in s
  {
  }

  /** The intended text determines the number: distinct numbers (whose
      fields are digit strings) print differently. */
  lemma IntendedRoundTrip(p: PhoneNumber)
    requires AllDigits(p.countryCode) && AllDigits(p.areaCode)
    requires AllDigits(p.subscriberNumber) && AllDigits(p.extension)
    ensures ParseIntended(StrIntended(p)) == Some(p)
  {
    var extension := if p.extension != "" then "-" + p.extension else "";
    var last := p.subscriberNumber + extension;
    var text := StrIntended(p);
    assert [p.countryCode, p.areaCode, last][1..] == [p.areaCode, last];
    assert [p.areaCode, last][1..] == [last];
    assert Join([last], ' ') == last;
    assert Join([p.areaCode, last], ' ') == p.areaCode + " " + last;
    assert text[1..] == p.countryCode + " " + p.areaCode + " " + last;
    assert text[1..] == Join([p.countryCode, p.areaCode, last], ' ');
    DigitsHaveNo(p.countryCode, ' ');
    DigitsHaveNo(p.areaCode, ' ');
    DigitsHaveNo(p.subscriberNumber, ' ');
    DigitsHaveNo(p.subscriberNumber, '-');
    DigitsHaveNo(p.extension, ' ');
    DigitsHaveNo(p.extension, '-');
    assert ' ' !in last;
    SplitJoin([p.countryCode, p.areaCode, last], ' ');
    if p.extension != "" {
      assert [p.subscriberNumber, p.extension][1..] == [p.extension];
      assert last == Join([p.subscriberNumber, p.extension], '-');
      SplitJoin([p.subscriberNumber, p.extension], '-');
    } else {
      assert last == Join([p.subscriberNumber], '-');
      SplitJoin([p.subscriberNumber], '-');
    }
  }

  /** Every number built from text prints, with the intended `__str__`, to
      a text that reads back as the same number. */
  lemma NumberPrintsBack(raw: string)
    ensures NewPhoneNumber(raw).Success? ==>
              ParseIntended(StrIntended(NewPhoneNumber(raw).value)) == Some(NewPhoneNumber(raw).value)
  {
    if NewPhoneNumber(raw).Success? {
      IntendedRoundTrip(NewPhoneNumber(raw).value);
    }
  }

  /** The sample strings of the module: only the first yields a number;
      the others raise on the way. */
  lemma SampleFullNumber()
    ensures NewPhoneNumber("+049 9729 1422-23") == Success(PhoneNumber("049", "9729", "1422", "23"))
  {
    var m := PhoneMatch(Some("+049"), Some("9729"), "1422", Some("-23"));
    SampleFullMatch();
    assert WellFormed(m);
    assert ExtractCountryCode(m) == Success("049");
    assert ExtractAreaCode(m) == "9729";
    assert ExtractSubscriberNumber(m) == "1422";
    assert ExtractExtension(m) == Success("23");
    assert FromMatch(m) == Success(PhoneNumber("049", "9729", "1422", "23"));
  }

  lemma SampleFullMatch()
    ensures MatchPhone("+049 9729 1422-23") == Some(PhoneMatch(Some("+049"), Some("9729"), "1422", Some("-23")))
  {
    SampleFullPrefix();
    SampleFullSubscriber();
    SampleFullExtension();
  }

  lemma SampleFullSubscriber()
    ensures Repetitions("+049 9729 1422-23", 10) == ("1422", 14)
  {
    var s := "+049 9729 1422-23";
    assert DigitRun(s, 10) == 4 by {
      assert DigitRun(s, 14) == 0;
      assert DigitRun(s, 13) == 1;
      assert DigitRun(s, 12) == 2;
      assert DigitRun(s, 11) == 3;
    }
    assert s[10..14] == "1422" && s[14] == '-';
    RepetitionsStop(s, 10);
  }

  lemma SampleFullExtension()
    ensures Extension("+049 9729 1422-23", 14) == Some("-23")
  {
    var s := "+049 9729 1422-23";
    assert DigitRun(s, 15) == 2 by {
      assert DigitRun(s, 17) == 0;
      assert DigitRun(s, 16) == 1;
    }
    assert s[14..17] == "-23";
  }

  lemma SampleFullPrefix()
    ensures Prefix("+049 9729 1422-23") == Some(("+049", "9729", 10))
  {
    var s := "+049 9729 1422-23";
    assert DigitRun(s, 1) == 3 by {
      assert DigitRun(s, 4) == 0;
      assert DigitRun(s, 3) == 1;
      assert DigitRun(s, 2) == 2;
    }
    SampleFullArea();
    assert s[..4] == "+049";
    assert PlusPrefix(s, 3) == Some(("+049", "9729", 10));
  }

  lemma SampleFullArea()
    ensures AreaAfter("+049 9729 1422-23", 4) == Some(("9729", 10))
  {
    var s := "+049 9729 1422-23";
    assert NonZeroRun(s, 5) == 4 by {
      assert NonZeroRun(s, 9) == 0;
      assert NonZeroRun(s, 8) == 1;
      assert NonZeroRun(s, 7) == 2;
      assert NonZeroRun(s, 6) == 3;
    }
    assert s[5..9] == "9729";
  }

  /** A single repetition of group 6 when neither a space nor another digit
      follows the digit run. */
  lemma RepetitionsStop(s: string, p: nat)
    requires p < |s| && IsDigit(s[p])
    requires p + DigitRun(s, p) == |s| || s[p + DigitRun(s, p)] != ' '
    ensures Repetitions(s, p) == (s[p..p + DigitRun(s, p)], p + DigitRun(s, p))
  {
  }

  lemma SampleWithoutExtension()
    ensures NewPhoneNumber("09123 161234") == Failure(ExtensionGroupMissing)
  {
    var s := "09123 161234";
    SampleShortArea();
    SampleShortSubscriber();
    assert Prefix(s) == Some(("0", "9123", 6));
    assert Extension(s, 12) == None;
    var m := PhoneMatch(Some("0"), Some("9123"), "161234", None);
    assert MatchPhone(s) == Some(m);
    assert ExtractExtension(m) == Failure(ExtensionGroupMissing);
  }

  lemma SampleShortArea()
    ensures AreaAfter("09123 161234", 1) == Some(("9123", 6))
  {
    var s := "09123 161234";
    assert NonZeroRun(s, 1) == 4 by {
      assert NonZeroRun(s, 5) == 0;
      assert NonZeroRun(s, 4) == 1;
      assert NonZeroRun(s, 3) == 2;
      assert NonZeroRun(s, 2) == 3;
    }
    assert s[1..5] == "9123";
  }

  lemma SampleShortSubscriber()
    ensures Repetitions("09123 161234", 6) == ("161234", 12)
  {
    var s := "09123 161234";
    assert DigitRun(s, 6) == 6 by {
      assert DigitRun(s, 12) == 0;
      assert DigitRun(s, 11) == 1;
      assert DigitRun(s, 10) == 2;
      assert DigitRun(s, 9) == 3;
      assert DigitRun(s, 8) == 4;
      assert DigitRun(s, 7) == 5;
    }
    assert s[6..12] == "161234";
    RepetitionsStop(s, 6);
  }

  lemma SampleDigitsOnly()
    ensures NewPhoneNumber("12345") == Failure(CountryGroupMissing)
  {
  }

  lemma SamplePlusInside()
    ensures NewPhoneNumber("1612+1") == Failure(CountryGroupMissing)
  {
  }

  lemma SampleTrunkOnly()
    ensures NewPhoneNumber("0") == Failure(CountryGroupMissing)
  {
    assert AreaAfter("0", 1) == None;
  }

  lemma SampleLetterInside()
    ensures NewPhoneNumber("256g1") == Failure(CountryGroupMissing)
  {
  }

  lemma SamplesWithoutMatch()
    ensures NewPhoneNumber("+049") == Failure(NoMatch)
    ensures NewPhoneNumber("") == Failure(NoMatch)
  {
    var s := "+049";
    assert DigitRun(s, 1) == 3;
    assert AreaAfter(s, 4) == None;
    assert AreaAfter(s, 3) == None;
    assert AreaAfter(s, 2) == None;
  }
}
