/** The age column of the bed-status feed: convert_age, the Adult/Paediatric
    bracket, and the pieces of Python it rests on (str.strip, int, str). */
module Ages {
  import opened Frames

  // ---------------------------------------------------------------------------
  // str.strip() and the whitespace it removes

  /** Python's str.isspace() for one character. */
  predicate IsSpace(c: char) {
    var n := c as int;
    (9 <= n <= 13) || (28 <= n <= 32) || n == 0x85 || n == 0xA0 || n == 0x1680
    || (0x2000 <= n <= 0x200A) || n == 0x2028 || n == 0x2029 || n == 0x202F
    || n == 0x205F || n == 0x3000
  }

  ghost predicate AllSpace(s: string) {
    forall k :: 0 <= k < |s| ==> IsSpace(s[k])
  }

  /** s.lstrip(): `s` without its leading whitespace. */
  function TrimLeft(s: string): string {
    if |s| > 0 && IsSpace(s[0]) then TrimLeft(s[1..]) else s
  }

  /** s.rstrip(): `s` without its trailing whitespace. */
  function TrimRight(s: string): string {
    if |s| > 0 && IsSpace(s[|s| - 1]) then TrimRight(s[..|s| - 1]) else s
  }

  /** s.strip(): never longer than `s`, and empty or with non-space ends. */
  function Strip(s: string): (r: string)
    ensures |r| <= |s|
    ensures r == [] || (!IsSpace(r[0]) && !IsSpace(r[|r| - 1]))
  {
    TrimLeftShape(s);
    TrimRightShape(TrimLeft(s));
    var r := TrimRight(TrimLeft(s));
    assert r != [] ==> r[0] == TrimLeft(s)[0];
    r
  }

  /** lstrip() drops a prefix made only of whitespace, and what is left is
      empty or starts with a non-space. */
  lemma {:induction false} TrimLeftShape(s: string)
    ensures var r := TrimLeft(s);
      && |r| <= |s| && r == s[|s| - |r|..]
      && AllSpace(s[..|s| - |r|])
      && (r == [] || !IsSpace(r[0]))
  {
    if |s| > 0 && IsSpace(s[0]) {
      TrimLeftShape(s[1..]);
      var r := TrimLeft(s);
      assert s[..|s| - |r|] == [s[0]] + s[1..][..|s| - 1 - |r|];
    }
  }

  /** rstrip() drops a suffix made only of whitespace, and what is left is
      empty or ends with a non-space. */
  lemma {:induction false} TrimRightShape(s: string)
    ensures var r := TrimRight(s);
      && |r| <= |s| && r == s[..|r|]
      && AllSpace(s[|r|..])
      && (r == [] || !IsSpace(r[|r| - 1]))
  {
    if |s| > 0 && IsSpace(s[|s| - 1]) {
      var init := s[..|s| - 1];
      TrimRightShape(init);
      var r := TrimRight(s);
      assert s[|r|..] == init[|r|..] + [s[|s| - 1]];
    }
  }

  lemma {:induction false} TrimLeftPadded(pre: string, core: string)
    requires AllSpace(pre) && (core == [] || !IsSpace(core[0]))
    ensures TrimLeft(pre + core) == core
  {
    if pre != [] {
      assert (pre + core)[1..] == pre[1..] + core;
      TrimLeftPadded(pre[1..], core);
    }
  }

  lemma {:induction false} TrimRightPadded(core: string, post: string)
    requires AllSpace(post) && (core == [] || !IsSpace(core[|core| - 1]))
    ensures TrimRight(core + post) == core
  {
    if post != [] {
      assert (core + post)[..|core + post| - 1] == core + post[..|post| - 1];
      TrimRightPadded(core, post[..|post| - 1]);
    }
  }

  /** Stripping removes exactly the whitespace around a text that neither starts
      nor ends with whitespace. */
  lemma StripPadded(pre: string, core: string, post: string)
    requires AllSpace(pre) && AllSpace(post)
    requires core != [] && !IsSpace(core[0]) && !IsSpace(core[|core| - 1])
    ensures Strip(pre + core + post) == core
  {
    assert pre + core + post == pre + (core + post);
    TrimLeftPadded(pre, core + post);
    TrimRightPadded(core, post);
  }

  // ---------------------------------------------------------------------------
  // int() of a string, and str() of an int

  predicate IsDigit(c: char) {
    '0' <= c <= '9'
  }

  /** The digits part int() accepts: digits, with single underscores between
      digits. */
  predicate DigitGroups(d: string) {
    && |d| > 0 && IsDigit(d[0]) && IsDigit(d[|d| - 1])
    && (forall k :: 0 <= k < |d| ==> IsDigit(d[k]) || d[k] == '_')
    && (forall k :: 0 <= k < |d| - 1 ==> d[k] != '_' || d[k + 1] != '_')
  }

  function RemoveUnderscores(d: string): (r: string)
    ensures (forall k :: 0 <= k < |d| ==> IsDigit(d[k]) || d[k] == '_') ==>
      forall k :: 0 <= k < |r| ==> IsDigit(r[k])
    ensures (forall k :: 0 <= k < |d| ==> d[k] != '_') ==> r == d
  {
    if d == [] then []
    else (if d[0] == '_' then [] else [d[0]]) + RemoveUnderscores(d[1..])
  }

  /** The number a string of decimal digits denotes. */
  function DigitsValue(ds: string): nat
    requires forall k :: 0 <= k < |ds| ==> IsDigit(ds[k])
  {
    if ds == [] then 0
    else
      assert IsDigit(ds[|ds| - 1]);
      DigitsValue(ds[..|ds| - 1]) * 10 + (ds[|ds| - 1] as int - '0' as int)
  }

  /** The default of sys.get_int_max_str_digits(): int() refuses a decimal
      string with more digits than this. */
  const MaxStrDigits: nat := 4300

  /** Digit groups within the digit limit, and their value. */
  function ParseDigits(d: string): Option<nat> {
    if DigitGroups(d) && |RemoveUnderscores(d)| <= MaxStrDigits then
      Some(DigitsValue(RemoveUnderscores(d)))
    else None
  }

  /** The whitespace int() skips around its argument. Characters below U+007F
      are kept as they are and only ASCII space, tab, LF, VT, FF and CR are
      skipped; characters above it that str.isspace() accepts are skipped too.
      So U+001C..U+001F, which str.isspace() accepts, are refused. */
  predicate IsIntSpace(c: char) {
    IsSpace(c) && !(0x1C <= c as int <= 0x1F)
  }

  /** The argument of int() without the whitespace it skips at either end. */
  function IntTrim(s: string): (r: string)
    ensures |r| <= |s|
    ensures r == [] || (!IsIntSpace(r[0]) && !IsIntSpace(r[|r| - 1]))
  {
    if |s| > 0 && IsIntSpace(s[0]) then IntTrim(s[1..])
    else if |s| > 0 && IsIntSpace(s[|s| - 1]) then IntTrim(s[..|s| - 1])
    else s
  }

  /** int(s) for a str argument: surrounding whitespace, then an optional sign,
      then digit groups; None where Python raises ValueError. */
  function ParseInt(s: string): (r: Option<int>)
    ensures r.Some? ==> Signed(IntTrim(s)) && !HasSpace(IntTrim(s))
  {
    ParseSigned(IntTrim(s))
  }

  /** An optional sign, then digits and underscores, ending in a digit. */
  ghost predicate Signed(t: string) {
    && |t| > 0 && IsDigit(t[|t| - 1])
    && forall k :: 0 <= k < |t| ==> IsDigit(t[k]) || t[k] == '_' || (k == 0 && (t[k] == '-' || t[k] == '+'))
  }

  ghost predicate HasSpace(t: string) {
    exists k :: 0 <= k < |t| && IsSpace(t[k])
  }

  /** An optional sign, then digit groups. */
  function ParseSigned(t: string): (r: Option<int>)
    ensures r.Some? ==> Signed(t) && !HasSpace(t)
  {
    if |t| > 0 && (t[0] == '-' || t[0] == '+') then
      assert forall k :: 1 <= k < |t| ==> t[k] == t[1..][k - 1];
      match ParseDigits(t[1..])
      case None => None
      case Some(n) => if t[0] == '-' then Some(-(n as int)) else Some(n as int)
    else
      match ParseDigits(t)
      case None => None
      case Some(n) => Some(n as int)
  }

  function DigitChar(d: nat): char
    requires d < 10
  {
    ('0' as int + d) as char
  }

  /** str(n) for a non-negative int. */
  function ShowNat(n: nat): (s: string)
    ensures |s| > 0 && forall k :: 0 <= k < |s| ==> IsDigit(s[k])
  {
    if n < 10 then [DigitChar(n)] else ShowNat(n / 10) + [DigitChar(n % 10)]
  }

  /** str(n). */
  function ShowInt(n: int): string {
    if n < 0 then "-" + ShowNat(-n) else ShowNat(n)
  }

  lemma {:induction false} DigitsOfShow(n: nat)
    ensures DigitsValue(ShowNat(n)) == n
  {
    if n >= 10 {
      var s := ShowNat(n);
      assert s[..|s| - 1] == ShowNat(n / 10);
      DigitsOfShow(n / 10);
    }
  }

  /** `n` has at most MaxStrDigits decimal digits. */
  predicate WithinDigitLimit(n: int) {
    |ShowNat(if n < 0 then -n else n)| <= MaxStrDigits
  }

  lemma ParseShowNat(n: nat)
    requires WithinDigitLimit(n)
    ensures ParseDigits(ShowNat(n)) == Some(n)
  {
    var d := ShowNat(n);
    DigitsOfShow(n);
    assert RemoveUnderscores(d) == d;
    assert DigitGroups(d);
  }

  /** str(n) starts with a digit or "-" and ends with a digit. */
  lemma ShowIntShape(n: int)
    ensures var s := ShowInt(n); |s| > 0 && !IsSpace(s[0]) && !IsSpace(s[|s| - 1])
    ensures n < 0 ==> ShowInt(n)[0] == '-' && ShowInt(n)[1..] == ShowNat(-n)
    ensures n >= 0 ==> ShowInt(n) == ShowNat(n) && IsDigit(ShowInt(n)[0])
  {
    if n < 0 {
      assert ("-" + ShowNat(-n))[1..] == ShowNat(-n);
    }
  }

  lemma StripUnpadded(s: string)
    requires s != [] && !IsSpace(s[0]) && !IsSpace(s[|s| - 1])
    ensures Strip(s) == s && IntTrim(s) == s
  {
    StripPadded([], s, []);
    assert [] + s + [] == s;
  }

  lemma ParseShowNegative(n: int)
    requires n < 0 && WithinDigitLimit(n)
    ensures ParseSigned(ShowInt(n)) == Some(n)
  {
    ShowIntShape(n);
    ParseShowNat(-n);
    ParseNegated(ShowInt(n));
  }

  lemma ParseNegated(t: string)
    requires |t| > 0 && t[0] == '-' && ParseDigits(t[1..]).Some?
    ensures ParseSigned(t) == Some(-(ParseDigits(t[1..]).value as int))
  {
  }

  lemma ParseShowNonNegative(n: int)
    requires n >= 0 && WithinDigitLimit(n)
    ensures ParseSigned(ShowInt(n)) == Some(n)
  {
    ShowIntShape(n);
    ParseShowNat(n);
  }

  /** int(str(n)) == n, for every n within the digit limit. */
  lemma ParseShow(n: int)
    requires WithinDigitLimit(n)
    ensures ParseInt(ShowInt(n)) == Some(n)
  {
    ShowIntShape(n);
    StripUnpadded(ShowInt(n));
    if n < 0 {
      ParseShowNegative(n);
    } else {
      ParseShowNonNegative(n);
    }
  }

  /** Beyond the digit limit int() raises ValueError even on str(n). */
  lemma TooManyDigits(n: int)
    requires !WithinDigitLimit(n)
    ensures ParseInt(ShowInt(n)) == None
  {
    ShowIntShape(n);
    StripUnpadded(ShowInt(n));
    var d := ShowNat(if n < 0 then -n else n);
    assert RemoveUnderscores(d) == d;
    if n < 0 {
      assert ShowInt(n)[1..] == d;
    }
  }

  // ---------------------------------------------------------------------------
  // convert_age

  /** convert_age for a string cell: whitespace stripped, "A" for years, "m" for
      months (which the script divides by 12), anything else None; the number
      before the unit must satisfy int(). */
  function ConvertAge(s: string): (r: Result<Option<Age>>)
    ensures r.Err? ==> var t := Strip(s);
      t != [] && t[|t| - 1] in "Am" && ParseInt(t[..|t| - 1]) == None && r.failure == BadNumber(t[..|t| - 1])
  {
    ConvertStripped(Strip(s))
  }

  /** A number comes back only for a stripped string ending in "A" (years) or
      "m" (months), and a failure is always int() refusing the number. */
  lemma ConvertAgeUnits(s: string)
    ensures var r := ConvertAge(s);
      && (r.Ok? && r.value.Some? ==>
            Strip(s) != [] && Strip(s)[|Strip(s)| - 1] == (if r.value.value.Years? then 'A' else 'm'))
      && (r.Err? ==> r.failure.BadNumber?)
  {
  }

  function ConvertStripped(t: string): Result<Option<Age>> {
    if |t| > 0 && (t[|t| - 1] == 'A' || t[|t| - 1] == 'm') then
      var number := t[..|t| - 1];
      match ParseInt(number)
      case Some(n) => Ok(Some(if t[|t| - 1] == 'A' then Years(n) else Months(n)))
      case None => Err(BadNumber(number))
    else
      Ok(None)
  }

  /** None exactly when the stripped string is empty or ends in neither unit. */
  lemma ConvertAgeNone(s: string)
    ensures ConvertAge(s) == Ok(None) <==> Strip(s) == [] || Strip(s)[|Strip(s)| - 1] !in "Am"
  {
  }

  /** The stripped text of a number followed by a unit reads back as that age. */
  lemma ConvertCore(core: string, n: int, unit: char)
    requires (unit == 'A' || unit == 'm') && core == ShowInt(n) + [unit] && WithinDigitLimit(n)
    ensures ConvertStripped(core) == Ok(Some(if unit == 'A' then Years(n) else Months(n)))
  {
    assert core[..|core| - 1] == ShowInt(n);
    ParseShow(n);
  }

  lemma ConvertPadded(pre: string, n: int, unit: char, post: string)
    requires AllSpace(pre) && AllSpace(post) && (unit == 'A' || unit == 'm') && WithinDigitLimit(n)
    ensures ConvertAge(pre + ShowInt(n) + [unit] + post)
      == Ok(Some(if unit == 'A' then Years(n) else Months(n)))
  {
    var core := ShowInt(n) + [unit];
    assert pre + ShowInt(n) + [unit] + post == pre + core + post;
    ShowIntShape(n);
    StripPadded(pre, core, post);
    ConvertCore(core, n, unit);
  }

  /** A whole number of years written as str() does, followed by "A" and padded
      with any whitespace, converts to that number of years. */
  lemma ConvertYears(pre: string, n: int, post: string)
    requires AllSpace(pre) && AllSpace(post) && WithinDigitLimit(n)
    ensures ConvertAge(pre + ShowInt(n) + "A" + post) == Ok(Some(Years(n)))
  {
    ConvertPadded(pre, n, 'A', post);
  }

  /** The same for months, with the unit "m". */
  lemma ConvertMonths(pre: string, n: int, post: string)
    requires AllSpace(pre) && AllSpace(post) && WithinDigitLimit(n)
    ensures ConvertAge(pre + ShowInt(n) + "m" + post) == Ok(Some(Months(n)))
  {
    ConvertPadded(pre, n, 'm', post);
  }

  lemma {:induction false} TrimLeftKeepsLast(s: string)
    requires |s| > 0 && !IsSpace(s[|s| - 1])
    ensures |TrimLeft(s)| > 0 && TrimLeft(s)[|TrimLeft(s)| - 1] == s[|s| - 1]
  {
    if IsSpace(s[0]) {
      TrimLeftKeepsLast(s[1..]);
    }
  }

  /** Any last character other than "A" or "m" gives None: the units are
      case-sensitive, and a string that is blank gives None too. */
  lemma OtherSuffixIsNone(s: string, c: char)
    requires c != 'A' && c != 'm' && !IsSpace(c)
    ensures ConvertAge(s + [c]) == Ok(None)
  {
    var all := s + [c];
    var l := TrimLeft(all);
    TrimLeftKeepsLast(all);
    assert l + [] == l;
    TrimRightPadded(l, []);
  }

  /** A cell of the age column: only strings have .strip(). */
  function ConvertAgeValue(v: Value): (r: Result<Value>)
    ensures r.Ok? ==> r.value.Null? || r.value.Number?
    ensures !v.Text? ==> r == Err(NotAString)
  {
    match v
    case Text(s) =>
      (match ConvertAge(s)
       case Ok(Some(a)) => Ok(Number(a))
       case Ok(None) => Ok(Null)
       case Err(e) => Err(e))
    case _ => Err(NotAString)
  }

  /** Series.apply over cells whose conversions gave `rs`: the first cell that
      raises stops the apply with its failure. */
  function Collect(rs: seq<Result<Value>>): (r: Result<seq<Value>>)
    ensures r.Ok? ==> |r.value| == |rs| && forall i :: 0 <= i < |rs| ==> rs[i] == Ok(r.value[i])
    ensures r.Err? ==> FirstErr(rs, r.failure)
  {
    if rs == [] then Ok([])
    else if rs[0].Err? then
      assert FirstErr(rs, rs[0].failure) by { assert 0 < |rs|; }
      Err(rs[0].failure)
    else
      var rest := Collect(rs[1..]);
      if rest.Err? then
        ErrShifts(rs, rest.failure);
        rest
      else
        assert forall i :: 1 <= i < |rs| ==> rs[1..][i - 1] == rs[i];
        Ok([rs[0].value] + rest.value)
  }

  /** Cell `i` is the first one that raised, and it raised `e`. */
  ghost predicate FirstErr(rs: seq<Result<Value>>, e: Failure) {
    exists i :: 0 <= i < |rs| && rs[i] == Err(e) && forall k :: 0 <= k < i ==> rs[k].Ok?
  }

  lemma ErrShifts(rs: seq<Result<Value>>, e: Failure)
    requires |rs| > 0 && rs[0].Ok? && FirstErr(rs[1..], e)
    ensures FirstErr(rs, e)
  {
    var j :| 0 <= j < |rs| - 1 && rs[1..][j] == Err(e) && forall k :: 0 <= k < j ==> rs[1..][k].Ok?;
    assert rs[j + 1] == Err(e);
    forall k | 0 <= k < j + 1 ensures rs[k].Ok? {
      if k > 0 { assert rs[1..][k - 1] == rs[k]; }
    }
  }

  /** The conversion of every cell of a column. */
  function ConvertEach(vals: seq<Value>): (rs: seq<Result<Value>>)
    ensures |rs| == |vals| && forall i :: 0 <= i < |vals| ==> rs[i] == ConvertAgeValue(vals[i])
  {
    seq(|vals|, i requires 0 <= i < |vals| => ConvertAgeValue(vals[i]))
  }

  /** df["age"].apply(convert_age). */
  function ConvertAgeColumn(vals: seq<Value>): (r: Result<seq<Value>>)
    ensures r.Ok? ==> |r.value| == |vals| && forall i :: 0 <= i < |vals| ==> ConvertAgeValue(vals[i]) == Ok(r.value[i])
    ensures r.Err? ==> exists i :: (0 <= i < |vals| && ConvertAgeValue(vals[i]) == Err(r.failure)
      && forall k :: 0 <= k < i ==> ConvertAgeValue(vals[k]).Ok?)
  {
    Collect(ConvertEach(vals))
  }

  // ---------------------------------------------------------------------------
  // The Adult/Paediatric bracket

  /** `x >= 18` on a converted age. After pandas has made the column numeric a
      None is NaN, for which the comparison is false. */
  function IsAdult(v: Value): (adult: bool)
    ensures v.Number? && v.age.Years? ==> (adult <==> v.age.years >= 18)
    ensures v.Number? && v.age.Months? ==> (adult <==> (v.age.months as real) / 12.0 >= 18.0)
    ensures v.Null? ==> !adult
  {
    match v
    case Number(Years(y)) => y >= 18
    case Number(Months(m)) => m >= 216
    case _ => false
  }

  function AgeLabel(v: Value): Value {
    Text(if IsAdult(v) then "Adult" else "Paediatric")
  }

  /** The AgeGroup column computed from AgeInYears. A non-empty column whose
      every cell is None keeps pandas' object dtype, and None >= 18 raises. */
  function AgeGroupColumn(ages: seq<Value>): (r: Result<seq<Value>>)
    ensures r.Err? <==> |ages| > 0 && forall i :: 0 <= i < |ages| ==> ages[i] == Null
    ensures r.Err? ==> r.failure == Unordered
    ensures r.Ok? ==> |r.value| == |ages| && forall i :: 0 <= i < |ages| ==>
      (r.value[i] == Text("Adult") || r.value[i] == Text("Paediatric"))
      && (r.value[i] == Text("Adult") <==> IsAdult(ages[i]))
  {
    if |ages| > 0 && forall i :: 0 <= i < |ages| ==> ages[i] == Null then Err(Unordered)
    else Ok(seq(|ages|, i requires 0 <= i < |ages| => AgeLabel(ages[i])))
  }

  lemma ShowEighteen() ensures ShowInt(18) == "18" && WithinDigitLimit(18) {}
  lemma ShowSeventeen() ensures ShowInt(17) == "17" && WithinDigitLimit(17) {}
  lemma ShowSix() ensures ShowInt(6) == "6" && WithinDigitLimit(6) {}

  lemma ConvertUnpadded(s: string, n: int, unit: char)
    requires (unit == 'A' || unit == 'm') && s == ShowInt(n) + [unit] && WithinDigitLimit(n)
    ensures ConvertAge(s) == Ok(Some(if unit == 'A' then Years(n) else Months(n)))
  {
    ShowIntShape(n);
    StripUnpadded(s);
    ConvertCore(s, n, unit);
  }

  /** "18A" is 18 years, an Adult. */
  lemma EighteenYearsIsAdult()
    ensures ConvertAge("18A") == Ok(Some(Years(18))) && IsAdult(Number(Years(18)))
  {
    ShowEighteen();
    ConvertUnpadded("18A", 18, 'A');
  }

  /** "17A" is 17 years, Paediatric. */
  lemma SeventeenYearsIsPaediatric()
    ensures ConvertAge("17A") == Ok(Some(Years(17))) && !IsAdult(Number(Years(17)))
  {
    ShowSeventeen();
    ConvertUnpadded("17A", 17, 'A');
  }

  /** "6m" is six months, Paediatric. */
  lemma SixMonthsIsPaediatric()
    ensures ConvertAge("6m") == Ok(Some(Months(6))) && !IsAdult(Number(Months(6)))
  {
    ShowSix();
    ConvertUnpadded("6m", 6, 'm');
  }

  /** 216 months is exactly 18 years: Adult; 215 months is not. */
  lemma MonthsThreshold()
    ensures IsAdult(Number(Months(216))) && !IsAdult(Number(Months(215)))
    ensures forall m: int :: m < 216 ==> !IsAdult(Number(Months(m)))
  {
  }

  /** The units are case-sensitive: "18a" and "6M" give None, as does "bad". */
  lemma WrongUnitIsNone()
    ensures ConvertAge("18a") == Ok(None) && ConvertAge("6M") == Ok(None)
    ensures ConvertAge("bad") == Ok(None)
  {
    OtherSuffixIsNone("18", 'a');
    assert "18" + ['a'] == "18a";
    OtherSuffixIsNone("6", 'M');
    assert "6" + ['M'] == "6M";
    OtherSuffixIsNone("ba", 'd');
    assert "ba" + ['d'] == "bad";
  }

  /** A unit with no number before it raises ValueError: int("") fails. */
  lemma BareUnitIsMalformed()
    ensures ConvertAge("A") == Err(BadNumber(""))
  {
    StripPadded([], "A", []);
    assert [] + "A" + [] == "A";
    assert Strip("") == "";
  }

  /** A stripped string ending in a unit whose number int() refuses raises
      ValueError on that number. */
  lemma MalformedNumber(s: string)
    requires s != [] && !IsSpace(s[0]) && (s[|s| - 1] == 'A' || s[|s| - 1] == 'm')
    requires ParseInt(s[..|s| - 1]) == None
    ensures ConvertAge(s) == Err(BadNumber(s[..|s| - 1]))
  {
    StripUnpadded(s);
  }

  /** A doubled underscore is not an integer literal for int(). */
  lemma DoubleUnderscoreIsMalformed()
    ensures ConvertAge("1__0m") == Err(BadNumber("1__0"))
  {
    StripUnpadded("1__0");
    assert !DigitGroups("1__0") by { assert "1__0"[1] == '_' && "1__0"[2] == '_'; }
    assert "1__0m"[..4] == "1__0";
    MalformedNumber("1__0m");
  }

  /** int() skips less whitespace than str.strip(): in "18\U{1c}A" the
      separator U+001C survives strip(), stays before the unit, and int()
      refuses it. Non-ASCII whitespace there is skipped. */
  lemma SeparatorBeforeUnitIsMalformed()
    ensures ConvertAge("18\U{1c}A") == Err(BadNumber("18\U{1c}"))
    ensures ConvertAge("18\U{a0}A") == Ok(Some(Years(18)))
  {
    StripUnpadded("18\U{1c}A");
    assert "18\U{1c}A"[..3] == "18\U{1c}";
    assert !DigitGroups("18\U{1c}") by { assert !IsDigit("18\U{1c}"[2]); }
    MalformedNumber("18\U{1c}A");
    StripUnpadded("18\U{a0}A");
    assert "18\U{a0}A"[..3] == "18\U{a0}";
    ShowEighteen();
    assert IntTrim("18\U{a0}") == "18";
    ParseShow(18);
  }
}
