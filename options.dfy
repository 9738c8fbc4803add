/** The option grammar of Pool.Open: each option is a "Key=Value" string, and
    the only recognised key, SetConnMaxLifetime, sets the idle duration (in
    seconds) of the connection Open hands out. */
module Options {

  /** The one key Open recognises. */
  const LifetimeKey: string := "SetConnMaxLifetime"

  /** The idle duration, in seconds, when Open is given no options at all. */
  const DefaultLifetime: int := 30

  // ---------------------------------------------------------------------------
  // strings.Split(s, "=")
  // ---------------------------------------------------------------------------

  /** The fields of s between '=' separators, as strings.Split(s, "=") returns
      them: always at least one, and exactly one when s holds no '='. */
  function Fields(s: string): (r: seq<string>)
    ensures |r| >= 1
    ensures forall i :: 0 <= i < |r| ==> '=' !in r[i]
    ensures '=' !in s ==> r == [s]
    ensures '=' in s ==> |r| > 1
  {
    if s == [] then [""]
    else
      var rest := Fields(s[1..]);
      if s[0] == '=' then [""] + rest
      else
        assert s == [s[0]] + s[1..];
        [[s[0]] + rest[0]] + rest[1..]
  }

  /** strings.Join(fs, "="): the fields glued back with '=' between them. */
  function Join(fs: seq<string>): string
    requires |fs| >= 1
  {
    if |fs| == 1 then fs[0] else fs[0] + "=" + Join(fs[1..])
  }

  /** Splitting and joining again gives back the option text. */
  lemma {:induction false} JoinFields(s: string)
    ensures Join(Fields(s)) == s
  {
    if s != [] {
      var rest := Fields(s[1..]);
      JoinFields(s[1..]);
      if s[0] == '=' {
        assert Fields(s) == [""] + rest;
        assert Fields(s)[1..] == rest;
      } else {
        var r := [[s[0]] + rest[0]] + rest[1..];
        assert Fields(s) == r;
        if |rest| == 1 {
          assert Join(rest) == rest[0];
        } else {
          assert Join(rest) == rest[0] + "=" + Join(rest[1..]);
          assert r[1..] == rest[1..];
        }
      }
    }
  }

  /** Splitting a field without '=' followed by "=" and more text yields that
      field followed by the fields of the rest. */
  lemma {:induction false} FieldsOfPrefixed(a: string, b: string)
    requires '=' !in a
    ensures Fields(a + "=" + b) == [a] + Fields(b)
  {
    if a == [] {
      assert a + "=" + b == ['='] + b;
      assert (['='] + b)[1..] == b;
    } else {
      var s := a + "=" + b;
      assert s[0] == a[0] && s[1..] == a[1..] + "=" + b;
      FieldsOfPrefixed(a[1..], b);
      assert [a[0]] + a[1..] == a;
    }
  }

  /** Joining fields that hold no '=' and splitting again gives back the fields. */
  lemma {:induction false} FieldsJoin(fs: seq<string>)
    requires |fs| >= 1
    requires forall i :: 0 <= i < |fs| ==> '=' !in fs[i]
    ensures Fields(Join(fs)) == fs
  {
    if |fs| > 1 {
      FieldsJoin(fs[1..]);
      FieldsOfPrefixed(fs[0], Join(fs[1..]));
      assert [fs[0]] + fs[1..] == fs;
    }
  }

  // ---------------------------------------------------------------------------
  // strconv.Atoi, without its range clamping
  // ---------------------------------------------------------------------------

  predicate IsDigit(c: char) {
    '0' <= c <= '9'
  }

  /** One or more decimal digits. */
  predicate IsDecimal(s: string) {
    |s| > 0 && forall i :: 0 <= i < |s| ==> IsDigit(s[i])
  }

  function DigitValue(c: char): nat
    requires IsDigit(c)
  {
    c as int - '0' as int
  }

  /** The value of a string of decimal digits, most significant first. */
  function DigitsValue(s: string): nat
    requires forall i :: 0 <= i < |s| ==> IsDigit(s[i])
  {
    if s == [] then 0
    else 10 * DigitsValue(s[..|s| - 1]) + DigitValue(s[|s| - 1])
  }

  /** strconv.Atoi as the source uses it, with the error dropped: an optional
      sign followed by one or more digits gives its value, and every other
      string gives 0. */
  function Atoi(s: string): (r: int)
    ensures r != 0 ==> IsDecimal(s) || (|s| > 1 && s[0] in "+-" && IsDecimal(s[1..]))
    ensures r < 0 ==> s[0] == '-'
    ensures IsDecimal(s) ==> r >= 0
  {
    if IsDecimal(s) then DigitsValue(s)
    else if |s| > 1 && s[0] == '+' && IsDecimal(s[1..]) then DigitsValue(s[1..])
    else if |s| > 1 && s[0] == '-' && IsDecimal(s[1..]) then -(DigitsValue(s[1..]) as int)
    else 0
  }

  /** The decimal rendering of a natural number, most significant digit first. */
  function Digits(n: nat): (s: string)
    ensures IsDecimal(s)
  {
    if n < 10 then ['0' + n as char]
    else Digits(n / 10) + ['0' + (n % 10) as char]
  }

  /** strconv.Itoa: the decimal rendering of an integer, with '-' when negative. */
  function Itoa(n: int): string {
    if n < 0 then "-" + Digits(-n) else Digits(n)
  }

  lemma {:induction false} DigitsValueOfDigits(n: nat)
    ensures DigitsValue(Digits(n)) == n
  {
    var s := Digits(n);
    if n >= 10 {
      DigitsValueOfDigits(n / 10);
      assert s[..|s| - 1] == Digits(n / 10);
    }
  }

  /** Atoi reads back every integer Itoa renders. */
  lemma AtoiItoa(n: int)
    ensures Atoi(Itoa(n)) == n
  {
    if n < 0 {
      var s := Itoa(n);
      assert s[1..] == Digits(-n);
      assert !IsDigit(s[0]);
      DigitsValueOfDigits(-n);
    } else {
      DigitsValueOfDigits(n);
    }
  }

  // ---------------------------------------------------------------------------
  // Resolving the idle duration
  // ---------------------------------------------------------------------------

  /** The option's key (the text before its first '=') is SetConnMaxLifetime. */
  predicate Recognised(o: string) {
    Fields(o)[0] == LifetimeKey
  }

  /** Open reads the value field of a recognised option unconditionally, so an
      option that is the bare key with no '=' makes it panic. */
  predicate Admissible(o: string) {
    Recognised(o) ==> |Fields(o)| > 1
  }

  /** The only option Open cannot process is the bare key itself. */
  lemma AdmissibleIff(o: string)
    ensures Admissible(o) <==> o != LifetimeKey
  {
    assert '=' !in LifetimeKey by {
      forall i | 0 <= i < |LifetimeKey| ensures LifetimeKey[i] != '=' {
        assert LifetimeKey[i] in "SetConnMaxLifetime";
      }
    }
    if o == LifetimeKey {
      assert Fields(o) == [o];
    }
  }

  /** The duration, in seconds, a recognised option sets: its value field read
      by Atoi. */
  function Setting(o: string): int
    requires Recognised(o) && Admissible(o)
  {
    Atoi(Fields(o)[1])
  }

  /** The duration after the options have been read in order from `initial`:
      each recognised option overwrites it and every other option leaves it. */
  function LastSetting(options: seq<string>, initial: int): int
    requires forall i :: 0 <= i < |options| ==> Admissible(options[i])
  {
    if |options| == 0 then initial
    else
      var o := options[|options| - 1];
      if Recognised(o) then Setting(o) else LastSetting(options[..|options| - 1], initial)
  }

  /** With no recognised option the starting value stands. */
  lemma {:induction false} LastSettingNone(options: seq<string>, initial: int)
    requires forall i :: 0 <= i < |options| ==> Admissible(options[i])
    requires forall j :: 0 <= j < |options| ==> !Recognised(options[j])
    ensures LastSetting(options, initial) == initial
  {
    if |options| > 0 {
      var front := options[..|options| - 1];
      assert forall j :: 0 <= j < |front| ==> front[j] == options[j];
      LastSettingNone(front, initial);
    }
  }

  /** The last recognised option decides the duration. */
  lemma {:induction false} LastSettingIsLast(options: seq<string>, initial: int, i: int)
    requires forall k :: 0 <= k < |options| ==> Admissible(options[k])
    requires 0 <= i < |options| && Recognised(options[i])
    requires forall j :: i < j < |options| ==> !Recognised(options[j])
    ensures LastSetting(options, initial) == Setting(options[i])
  {
    var n := |options| - 1;
    if i < n {
      var front := options[..n];
      assert front[i] == options[i];
      assert forall j :: i < j < |front| ==> front[j] == options[j];
      LastSettingIsLast(front, initial, i);
    }
  }

  /** Both cases of LastSetting, for every position at once. */
  lemma LastSettingSpec(options: seq<string>, initial: int)
    requires forall i :: 0 <= i < |options| ==> Admissible(options[i])
    ensures (forall j :: 0 <= j < |options| ==> !Recognised(options[j])) ==>
              LastSetting(options, initial) == initial
    ensures forall i :: (0 <= i < |options| && Recognised(options[i]) &&
                         (forall j :: i < j < |options| ==> !Recognised(options[j]))) ==>
                LastSetting(options, initial) == Setting(options[i])
  {
    if forall j :: 0 <= j < |options| ==> !Recognised(options[j]) {
      LastSettingNone(options, initial);
    }
    forall i | 0 <= i < |options| && Recognised(options[i]) &&
               (forall j :: i < j < |options| ==> !Recognised(options[j]))
      ensures LastSetting(options, initial) == Setting(options[i])
    {
      LastSettingIsLast(options, initial, i);
    }
  }

  /** The idle duration Open resolves from its options: 30 seconds when there
      are none, otherwise the last SetConnMaxLifetime value, and 0 when options
      are given but none of them is recognised. */
  function LifetimeOf(options: seq<string>): (r: int)
    requires forall i :: 0 <= i < |options| ==> Admissible(options[i])
    ensures |options| == 0 ==> r == DefaultLifetime
    ensures |options| > 0 && (forall j :: 0 <= j < |options| ==> !Recognised(options[j])) ==> r == 0
    ensures forall i :: (0 <= i < |options| && Recognised(options[i]) &&
                         (forall j :: i < j < |options| ==> !Recognised(options[j]))) ==>
                r == Setting(options[i])
  {
    if |options| == 0 then DefaultLifetime
    else
      LastSettingSpec(options, 0);
      LastSetting(options, 0)
  }

  /** The option loop at the head of Open: Time starts at its zero value and
      each recognised option overwrites it; with no options it is 30 seconds. */
  method ResolveLifetime(options: seq<string>) returns (time: int)
    requires forall i :: 0 <= i < |options| ==> Admissible(options[i])
    ensures time == LifetimeOf(options)
  {
    time := 0;
    if |options| > 0 {
      var i := 0;
      while i < |options|
        invariant 0 <= i <= |options|
        invariant time == LastSetting(options[..i], 0)
      {
        var opt := Fields(options[i]);
        if opt[0] == LifetimeKey {
          time := Atoi(opt[1]);
        }
        // an unrecognised key is only reported on standard output
        assert options[..i + 1][..i] == options[..i];
        i := i + 1;
      }
      assert options[..i] == options;
    } else {
      time := DefaultLifetime;
    }
  }
}
