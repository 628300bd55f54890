/** The utility functions of src/utils/helper.js: a type-guarded sum, a
    type-guarded message decorator and an e-mail validator. */
module Helper {
  import opened JsValues
  import opened JsRegex

  // ---------------------------------------------------------------------
  // calculateSum

  /** The message of the error thrown for a non-number ("arguments must be numbers"). */
  const NotNumbersMessage: string := "参数必须是数字"

  /** `calculateSum(a, b)`: throws unless both arguments are numbers;
      otherwise their sum. */
  function CalculateSum(a: JsValue, b: JsValue): (r: Result<int>)
    ensures r.Thrown? <==> !a.JsNumber? || !b.JsNumber?
    ensures r.Thrown? ==> r.error == Error(NotNumbersMessage)
    ensures r.Ok? ==> r.value == a.n + b.n
  {
    if TypeOf(a) != "number" || TypeOf(b) != "number" then
      Thrown(Error(NotNumbersMessage))
    else
      Ok(a.n + b.n)
  }

  /** The guard is symmetric and so is the sum: swapping the arguments
      changes neither the value nor the error. */
  lemma CalculateSumCommutative(a: JsValue, b: JsValue)
    ensures CalculateSum(a, b) == CalculateSum(b, a)
  {
  }

  /** The call made by the entry point of the application. */
  lemma CalculateSumOfEntryPoint()
    ensures CalculateSum(JsNumber(10), JsNumber(20)) == Ok(30)
  {
  }

  // ---------------------------------------------------------------------
  // formatMessage

  /** The message of the error thrown for a non-string ("argument must be a string"). */
  const NotAStringMessage: string := "参数必须是字符串"

  /** Ten `=` and a space before the message, a space and ten `=` after it. */
  const OpeningFence: string := "========== "
  const ClosingFence: string := " =========="

  /** `formatMessage(message)`: throws unless the argument is a string;
      otherwise the message between the two fences. */
  function FormatMessage(message: JsValue): (r: Result<string>)
    ensures r.Thrown? <==> !message.JsString?
    ensures r.Thrown? ==> r.error == Error(NotAStringMessage)
    ensures r.Ok? ==>
      && |r.value| == |message.s| + 22
      && r.value[..11] == "========== "
      && r.value[|r.value| - 11..] == " =========="
      && r.value[11..|r.value| - 11] == message.s
  {
    if TypeOf(message) != "string" then
      Thrown(Error(NotAStringMessage))
    else
      var f := OpeningFence + message.s + ClosingFence;
      assert f[..11] == OpeningFence;
      assert f[|f| - 11..] == ClosingFence;
      assert f[11..|f| - 11] == message.s;
      Ok(f)
  }

  /** The inverse of formatting: the text between the fences of a string
      that `FormatMessage` can produce. */
  function StripFences(f: string): (r: Option<string>)
    ensures r.Some? <==> |f| >= 22 && f[..11] == OpeningFence && f[|f| - 11..] == ClosingFence
    ensures r.Some? ==> f == OpeningFence + r.value + ClosingFence
  {
    if |f| >= 22 && f[..11] == OpeningFence && f[|f| - 11..] == ClosingFence then
      var m := f[11..|f| - 11];
      assert f == f[..11] + m + f[|f| - 11..];
      Some(m)
    else
      None
  }

  /** Dropping the fences of a formatted message gives the message back. */
  lemma StripFormatted(m: string)
    ensures FormatMessage(JsString(m)).Ok?
    ensures StripFences(FormatMessage(JsString(m)).value) == Some(m)
  {
  }

  /** Every string that has both fences is the formatting of its middle. */
  lemma FormatStripped(f: string)
    requires StripFences(f).Some?
    ensures FormatMessage(JsString(StripFences(f).value)) == Ok(f)
  {
  }

  /** Different messages are formatted differently. */
  lemma FormatMessageInjective(m1: JsValue, m2: JsValue)
    requires FormatMessage(m1).Ok?
    requires FormatMessage(m1) == FormatMessage(m2)
    ensures m1 == m2
  {
    StripFormatted(m1.s);
    StripFormatted(m2.s);
  }

  // ---------------------------------------------------------------------
  // validateEmail

  /** `[^\s@]`: any character other than whitespace and `@`. */
  const AddressClass: CharClass := CharClass(true, [SpaceEscape, Single('@')])

  /** `^[^\s@]+@[^\s@]+\.[^\s@]+$`, and the suffixes of it that the proofs
      walk through. */
  const EmailPattern: Pattern := [OneOrMore(AddressClass)] + AtDomainPattern
  const AtDomainPattern: Pattern := [Literal('@')] + DomainPattern
  const DomainPattern: Pattern := [OneOrMore(AddressClass)] + DotSuffixPattern
  const DotSuffixPattern: Pattern := [Literal('.')] + SuffixPattern
  const SuffixPattern: Pattern := [OneOrMore(AddressClass)]

  /** The regular expression restated without it. */
  predicate NoWhitespace(s: string) {
    forall i :: 0 <= i < |s| ==> !IsWhitespace(s[i])
  }

  /** A `.` that is neither the first nor the last character. */
  predicate HasInnerDot(d: string) {
    exists i :: 1 <= i <= |d| - 2 && d[i] == '.'
  }

  /** The first position of `c` in `s`. */
  function IndexOf(s: string, c: char): (i: nat)
    requires c in s
    ensures i < |s| && s[i] == c && c !in s[..i]
  {
    if s[0] == c then 0
    else
      var j := IndexOf(s[1..], c);
      assert s[..1 + j] == [s[0]] + s[1..][..j];
      1 + j
  }

  /** No whitespace, exactly one `@`, something before it, and after it a
      domain with a `.` that is neither its first nor its last character. */
  predicate IsPlainEmail(s: string) {
    && NoWhitespace(s)
    && multiset(s)['@'] == 1
    && var at := IndexOf(s, '@');
       0 < at && HasInnerDot(s[at + 1..])
  }

  /** `validateEmail(email)`: whether the e-mail regular expression matches. */
  function ValidateEmail(email: string): (ok: bool)
    ensures ok <==> IsPlainEmail(email)
  {
    EmailPatternMeaning(email);
    Matches(EmailPattern, email)
  }

  /** What `[^\s@]` accepts. */
  predicate InAddressClass(c: char) {
    !IsWhitespace(c) && c != '@'
  }

  lemma AddressClassMeaning(c: char)
    ensures ClassMatches(AddressClass, c) <==> InAddressClass(c)
  {
    var items := AddressClass.items;
    if IsWhitespace(c) {
      assert ItemMatches(items[0], c);
    } else if c == '@' {
      assert ItemMatches(items[1], c);
    }
  }

  lemma AllInAddressClass(s: string)
    ensures AllInClass(AddressClass, s) <==> NoWhitespace(s) && '@' !in s
  {
    forall i | 0 <= i < |s| {
      AddressClassMeaning(s[i]);
    }
  }

  /** `^[^\s@]+$` */
  lemma SuffixMeaning(t: string)
    ensures Matches(SuffixPattern, t) <==> 1 <= |t| && AllInClass(AddressClass, t)
  {
    assert SuffixPattern[1..] == [];
    if 1 <= |t| && AllInClass(AddressClass, t) {
      assert t[..|t|] == t;
      assert Matches(SuffixPattern[1..], t[|t|..]);
    }
  }

  /** `^[^\s@]+\.[^\s@]+$` */
  lemma {:induction false} DomainMeaning(d: string)
    ensures Matches(DomainPattern, d) <==> AllInClass(AddressClass, d) && HasInnerDot(d)
  {
    assert DomainPattern[1..] == DotSuffixPattern;
    assert DotSuffixPattern[1..] == SuffixPattern;
    AddressClassMeaning('.');
    if Matches(DomainPattern, d) {
      var k :| 1 <= k <= |d| && AllInClass(AddressClass, d[..k]) && Matches(DotSuffixPattern, d[k..]);
      SuffixMeaning(d[k..][1..]);
      assert d[k..][1..] == d[k + 1..];
      assert d[k] == '.';
      forall i | 0 <= i < |d| ensures ClassMatches(AddressClass, d[i]) {
        if i < k {
          assert d[i] == d[..k][i];
        } else if k < i {
          assert d[i] == d[k + 1..][i - k - 1];
        }
      }
    }
    if AllInClass(AddressClass, d) && HasInnerDot(d) {
      var k :| 1 <= k <= |d| - 2 && d[k] == '.';
      assert d[k..][1..] == d[k + 1..];
      SuffixMeaning(d[k + 1..]);
      assert Matches(DotSuffixPattern, d[k..]);
      assert AllInClass(AddressClass, d[..k]);
    }
  }

  /** The whole pattern splits its input at an `@` into a local part and a
      domain. */
  lemma {:induction false} EmailPatternSplit(s: string)
    ensures Matches(EmailPattern, s) <==>
      exists k :: 1 <= k < |s| && s[k] == '@' && AllInClass(AddressClass, s[..k])
        && Matches(DomainPattern, s[k + 1..])
  {
    assert EmailPattern[1..] == AtDomainPattern;
    assert AtDomainPattern[1..] == DomainPattern;
    if Matches(EmailPattern, s) {
      var k :| 1 <= k <= |s| && AllInClass(AddressClass, s[..k]) && Matches(AtDomainPattern, s[k..]);
      assert s[k..][1..] == s[k + 1..];
    }
    if exists k :: 1 <= k < |s| && s[k] == '@' && AllInClass(AddressClass, s[..k])
        && Matches(DomainPattern, s[k + 1..]) {
      var k :| 1 <= k < |s| && s[k] == '@' && AllInClass(AddressClass, s[..k])
        && Matches(DomainPattern, s[k + 1..]);
      assert s[k..][1..] == s[k + 1..];
      assert Matches(AtDomainPattern, s[k..]);
    }
  }

  /** An address split at an `@` with nothing but address characters on
      either side. */
  predicate SplitAt(s: string, k: int) {
    && 1 <= k < |s| && s[k] == '@'
    && NoWhitespace(s[..k]) && '@' !in s[..k]
    && NoWhitespace(s[k + 1..]) && '@' !in s[k + 1..]
    && HasInnerDot(s[k + 1..])
  }

  /** The plain predicate splits its input at its one `@`. */
  lemma PlainEmailSplits(s: string)
    requires IsPlainEmail(s)
    ensures SplitAt(s, IndexOf(s, '@'))
  {
    var k := IndexOf(s, '@');
    assert s == s[..k] + [s[k]] + s[k + 1..];
    assert multiset(s) == multiset(s[..k]) + multiset([s[k]]) + multiset(s[k + 1..]);
    assert '@' !in s[k + 1..];
    assert NoWhitespace(s[..k]) && NoWhitespace(s[k + 1..]);
  }

  /** Conversely, any such split satisfies the plain predicate. */
  lemma SplitIsPlainEmail(s: string, k: int)
    requires SplitAt(s, k)
    ensures IsPlainEmail(s)
  {
    assert s == s[..k] + [s[k]] + s[k + 1..];
    assert multiset(s) == multiset(s[..k]) + multiset([s[k]]) + multiset(s[k + 1..]);
    assert multiset(s[..k])['@'] == 0 && multiset(s[k + 1..])['@'] == 0;
    forall i | 0 <= i < |s| ensures !IsWhitespace(s[i]) {
      if i < k {
        assert s[i] == s[..k][i];
      } else if k < i {
        assert s[i] == s[k + 1..][i - k - 1];
      }
    }
  }

  /** The regular expression accepts exactly the plain e-mail shape. */
  lemma EmailPatternMeaning(s: string)
    ensures Matches(EmailPattern, s) <==> IsPlainEmail(s)
  {
    EmailPatternSplit(s);
    if Matches(EmailPattern, s) {
      var k :| 1 <= k < |s| && s[k] == '@' && AllInClass(AddressClass, s[..k])
        && Matches(DomainPattern, s[k + 1..]);
      AllInAddressClass(s[..k]);
      AllInAddressClass(s[k + 1..]);
      DomainMeaning(s[k + 1..]);
      SplitIsPlainEmail(s, k);
    }
    if IsPlainEmail(s) {
      var k := IndexOf(s, '@');
      PlainEmailSplits(s);
      AllInAddressClass(s[..k]);
      AllInAddressClass(s[k + 1..]);
      DomainMeaning(s[k + 1..]);
      assert Matches(DomainPattern, s[k + 1..]);
    }
  }

  /** An accepted address has at least five characters: one per atom. */
  lemma ValidEmailLength(s: string)
    requires ValidateEmail(s)
    ensures |s| >= 5
  {
    MatchLength(EmailPattern, s);
  }

  /** An address that splits at an `@` is accepted. */
  lemma AcceptedWhenSplit(s: string, k: int)
    requires SplitAt(s, k)
    ensures ValidateEmail(s)
  {
    SplitIsPlainEmail(s, k);
  }

  /** The sample address of the mocked user API is accepted. */
  lemma ValidateSampleAddress()
    ensures ValidateEmail("test@example.com")
  {
    var s := "test@example.com";
    assert SplitAt(s, 4) by {
      assert s[..4] == "test" && s[5..] == "example.com";
      assert "example.com"[7] == '.';
    }
    AcceptedWhenSplit(s, 4);
  }

  /** Addresses missing a part, or with a second `@`, are rejected. */
  lemma ValidateRejections()
    ensures !ValidateEmail("@a.b")
    ensures !ValidateEmail("a@b")
    ensures !ValidateEmail("a@.b")
    ensures !ValidateEmail("a@b.")
    ensures !ValidateEmail("a@b@c.d")
  {
    assert IndexOf("@a.b", '@') == 0;
    assert IndexOf("a@b", '@') == 1;
    assert IndexOf("a@.b", '@') == 1;
    assert IndexOf("a@b.", '@') == 1;
    var s := "a@b@c.d";
    assert s == s[..3] + [s[3]] + s[4..];
    assert multiset(s)['@'] == 2;
  }
}
