/** The four-stage phone-number normalisation of the user cleaner
    (data_cleaning.py:23-29), one row at a time. */
module Phone {
  import opened Results
  import opened Text

  /** Length of the longest run of word characters at the start of `s` (greedy `\w+`). */
  function WordRun(s: string): (n: nat)
    ensures n <= |s|
    ensures forall i :: 0 <= i < n ==> IsWordChar(s[i])
    ensures n < |s| ==> !IsWordChar(s[n])
  {
    if |s| == 0 || !IsWordChar(s[0]) then 0 else 1 + WordRun(s[1..])
  }

  /** Length of the match of `\+1|\+44|\+49|x\w+` that starts at `s[0]`, trying the
      alternatives left to right as Python's `re` does; 0 when none matches there. */
  function MatchLength(s: string): (k: nat)
    ensures k <= |s|
    ensures k > 0 ==> s[0] == '+' || s[0] == 'x'
  {
    if |s| >= 2 && s[0] == '+' && s[1] == '1' then 2
    else if |s| >= 3 && s[0] == '+' && s[1] == '4' && (s[2] == '4' || s[2] == '9') then 3
    else if |s| >= 2 && s[0] == 'x' && IsWordChar(s[1]) then 1 + WordRun(s[1..])
    else 0
  }

  /** Stage 1 (line 23), deleting every match of the pattern above: scan left to right, delete
      each leftmost match and resume after it; characters outside matches stay. */
  function StripDialCodesAndExtensions(s: string): (r: string)
    ensures |r| <= |s|
    decreases |s|
  {
    if |s| == 0 then ""
    else
      var k := MatchLength(s);
      if k > 0 then StripDialCodesAndExtensions(s[k..])
      else [s[0]] + StripDialCodesAndExtensions(s[1..])
  }

  /** Stage 1 only deletes characters: what is left keeps its order. */
  lemma {:induction false} StripSubsequence(s: string)
    ensures IsSubsequence(StripDialCodesAndExtensions(s), s)
    decreases |s|
  {
    if |s| > 0 {
      var k := MatchLength(s);
      if k > 0 {
        StripSubsequence(s[k..]);
        SubsequenceOfSuffix(StripDialCodesAndExtensions(s[k..]), s, k);
      } else {
        StripSubsequence(s[1..]);
        SubsequenceCons(s[0], StripDialCodesAndExtensions(s[1..]), s[1..]);
        assert s == [s[0]] + s[1..];
      }
    }
  }

  /** No `+` and no `x`: nothing can match. */
  predicate Plain(s: string) {
    forall i :: 0 <= i < |s| ==> s[i] != '+' && s[i] != 'x'
  }

  /** Stage 1 keeps a first character that starts no match and goes on after it. */
  lemma StripKeepsFirst(s: string)
    requires |s| > 0 && s[0] != '+' && s[0] != 'x'
    ensures StripDialCodesAndExtensions(s) == [s[0]] + StripDialCodesAndExtensions(s[1..])
  {
    assert MatchLength(s) == 0;
  }

  /** A prefix that cannot start a match passes through unchanged. */
  lemma {:induction false} StripPlainPrefix(p: string, q: string)
    requires Plain(p)
    ensures StripDialCodesAndExtensions(p + q) == p + StripDialCodesAndExtensions(q)
    decreases |p|
  {
    if |p| == 0 {
      assert p + q == q;
    } else {
      PlainTail(p);
      StripPlainPrefix(p[1..], q);
      SplitHead(p, q);
      ConsStrip(p[0], p[1..] + q);
      ConsAppend(p[0], p[1..], StripDialCodesAndExtensions(q));
    }
  }

  lemma PlainTail(p: string)
    requires |p| > 0 && Plain(p)
    ensures p[0] != '+' && p[0] != 'x'
    ensures Plain(p[1..])
  {
    var rest := p[1..];
    forall i | 0 <= i < |rest|
      ensures rest[i] != '+' && rest[i] != 'x'
    {
      assert rest[i] == p[i + 1];
    }
  }

  lemma SplitHead(p: string, q: string)
    requires |p| > 0
    ensures [p[0]] + (p[1..] + q) == p + q
    ensures [p[0]] + p[1..] == p
  {
  }

  /** Stage 1 keeps a first character that starts no match. */
  lemma ConsStrip(c: char, s: string)
    requires c != '+' && c != 'x'
    ensures StripDialCodesAndExtensions([c] + s) == [c] + StripDialCodesAndExtensions(s)
  {
    StripKeepsFirst([c] + s);
    assert ([c] + s)[1..] == s;
  }

  lemma ConsAppend(c: char, a: string, b: string)
    ensures [c] + (a + b) == ([c] + a) + b
  {
  }

  lemma StripPlain(s: string)
    requires Plain(s)
    ensures StripDialCodesAndExtensions(s) == s
  {
    StripPlainPrefix(s, "");
    assert s + "" == s;
  }

  /** A leading international dialing code is deleted. */
  lemma StripLeadingDialCode(code: string, q: string)
    requires code == "+1" || code == "+44" || code == "+49"
    ensures StripDialCodesAndExtensions(code + q) == StripDialCodesAndExtensions(q)
  {
    var s := code + q;
    assert s[..|code|] == code;
    assert s[|code|..] == q;
    assert MatchLength(s) == |code|;
  }

  /** An extension `x` followed by word characters is deleted as a whole. */
  lemma StripExtension(w: string)
    requires |w| > 0
    requires forall i :: 0 <= i < |w| ==> IsWordChar(w[i])
    ensures StripDialCodesAndExtensions("x" + w) == ""
  {
    var s := "x" + w;
    assert s[1..] == w;
    assert WordRun(w) == |w|;
    assert MatchLength(s) == |s|;
  }

  /** A run of word characters followed by a non-word character (or nothing) is
      exactly as long as the run. */
  lemma {:induction false} WordRunPrefix(w: string, q: string)
    requires forall i :: 0 <= i < |w| ==> IsWordChar(w[i])
    requires |q| == 0 || !IsWordChar(q[0])
    ensures WordRun(w + q) == |w|
    decreases |w|
  {
    if |w| == 0 {
      assert w + q == q;
    } else {
      assert (w + q)[1..] == w[1..] + q;
      WordRunPrefix(w[1..], q);
    }
  }

  /** Stage 1 deletes a match at the front and resumes right after it. */
  lemma StripAfterMatch(s: string)
    requires MatchLength(s) > 0
    ensures StripDialCodesAndExtensions(s) == StripDialCodesAndExtensions(s[MatchLength(s)..])
  {
  }

  /** `x` then a word run then a non-word character (or nothing) matches the run. */
  lemma MatchExtensionThen(w: string, q: string)
    requires |w| > 0
    requires forall i :: 0 <= i < |w| ==> IsWordChar(w[i])
    requires |q| == 0 || !IsWordChar(q[0])
    ensures MatchLength("x" + w + q) == 1 + |w|
  {
    var s := "x" + w + q;
    assert s[0] == 'x' && s[1] == w[0];
    assert s[1..] == w + q;
    WordRunPrefix(w, q);
  }

  /** The greedy `x\w+` stops at the first non-word character, and scanning
      resumes there: an extension in the middle of a number goes, the rest stays. */
  lemma StripExtensionThen(w: string, q: string)
    requires |w| > 0
    requires forall i :: 0 <= i < |w| ==> IsWordChar(w[i])
    requires |q| == 0 || !IsWordChar(q[0])
    ensures StripDialCodesAndExtensions("x" + w + q) == StripDialCodesAndExtensions(q)
  {
    MatchExtensionThen(w, q);
    StripAfterMatch("x" + w + q);
    assert ("x" + w + q)[1 + |w|..] == q;
  }

  /** A `+` that starts no dialing code stays, and scanning goes on after it. */
  lemma StripKeepsOtherPlus(s: string)
    requires |s| > 0 && s[0] == '+'
    requires !(|s| >= 2 && s[1] == '1')
    requires !(|s| >= 3 && s[1] == '4' && (s[2] == '4' || s[2] == '9'))
    ensures StripDialCodesAndExtensions(s) == [s[0]] + StripDialCodesAndExtensions(s[1..])
  {
    assert MatchLength(s) == 0;
  }

  /** An `x` not followed by a word character is no extension: it stays. */
  lemma StripKeepsLoneX(s: string)
    requires |s| > 0 && s[0] == 'x'
    requires |s| == 1 || !IsWordChar(s[1])
    ensures StripDialCodesAndExtensions(s) == [s[0]] + StripDialCodesAndExtensions(s[1..])
  {
    assert MatchLength(s) == 0;
  }

  /** Stage 4 for GB rows: a number not starting with `0` gets one in front; reading
      the first character of an empty number raises. */
  function PrefixZero(p: string): (r: Result<string>)
    ensures r.Err? <==> |p| == 0
    ensures r.Err? ==> r.error == EmptyPhone
    ensures r.Ok? ==> |r.value| > 0 && r.value[0] == '0'
    ensures r.Ok? ==> r.value == p || r.value == "0" + p
    ensures |p| > 0 && p[0] == '0' ==> r == Ok(p)
  {
    if |p| == 0 then Err(EmptyPhone)
    else if p[0] != '0' then Ok("0" + p)
    else Ok(p)
  }

  lemma PrefixZeroIdempotent(p: string)
    requires PrefixZero(p).Ok?
    ensures PrefixZero(PrefixZero(p).value) == PrefixZero(p)
  {
  }

  /** Stages 1-2: the digits left once dialing codes and extensions are deleted. */
  function PhoneDigits(raw: string): (r: string)
    ensures AllDigits(r) && |r| <= |raw|
    ensures IsSubsequence(r, raw)
  {
    StripSubsequence(raw);
    KeepDigitsSubsequence(StripDialCodesAndExtensions(raw));
    SubsequenceTrans(KeepDigits(StripDialCodesAndExtensions(raw)), StripDialCodesAndExtensions(raw), raw);
    KeepDigits(StripDialCodesAndExtensions(raw))
  }

  /** Stage 3 (line 27): US numbers keep their last ten characters. */
  function KeepLastTenIfUs(countryCode: string, p: string): (r: string)
    ensures countryCode == "US" ==> |r| == (if |p| <= 10 then |p| else 10) && r == p[|p| - |r|..]
    ensures countryCode != "US" ==> r == p
    ensures AllDigits(p) ==> AllDigits(r)
  {
    if countryCode == "US" then SliceFromEnd(p, 10) else p
  }

  /** Stage 4 (line 29): GB numbers get a leading `0`; `p[0]` is only evaluated for GB rows. */
  function PrefixZeroIfGb(countryCode: string, p: string): (r: Result<string>)
    ensures r.Err? <==> countryCode == "GB" && |p| == 0
    ensures r.Err? ==> r.error == EmptyPhone
    ensures countryCode == "GB" && r.Ok? ==> |r.value| > 0 && r.value[0] == '0'
    ensures countryCode != "GB" ==> r == Ok(p)
  {
    if countryCode == "GB" then PrefixZero(p) else Ok(p)
  }

  /** The whole phone rule for a row with country code `countryCode`. */
  function NormalisePhone(countryCode: string, raw: string): (r: Result<string>)
    ensures r.Ok? ==> AllDigits(r.value)
    ensures r.Err? <==> countryCode == "GB" && |PhoneDigits(raw)| == 0
    ensures r.Err? ==> r.error == EmptyPhone
    ensures countryCode == "US" ==>
      && r.Ok?
      && |r.value| <= 10 && |r.value| <= |PhoneDigits(raw)|
      && r.value == PhoneDigits(raw)[|PhoneDigits(raw)| - |r.value|..]
      && (|PhoneDigits(raw)| <= 10 ==> r.value == PhoneDigits(raw))
      && (|PhoneDigits(raw)| >= 10 ==> |r.value| == 10)
    ensures countryCode == "GB" && r.Ok? ==>
      && |PhoneDigits(raw)| > 0 && |r.value| > 0
      && r.value[0] == '0'
      && (PhoneDigits(raw)[0] == '0' ==> r.value == PhoneDigits(raw))
      && (PhoneDigits(raw)[0] != '0' ==> r.value == "0" + PhoneDigits(raw))
    ensures countryCode != "US" && countryCode != "GB" ==> r == Ok(PhoneDigits(raw))
  {
    var r := PrefixZeroIfGb(countryCode, KeepLastTenIfUs(countryCode, PhoneDigits(raw)));
    assert r.Ok? && countryCode == "GB" ==> AllDigits(r.value) by {
      if r.Ok? && countryCode == "GB" && r.value != PhoneDigits(raw) {
        assert r.value == "0" + PhoneDigits(raw);
      }
    }
    r
  }

  /** Running the phone rule on its own output changes nothing. */
  lemma NormalisePhoneIdempotent(countryCode: string, raw: string)
    requires NormalisePhone(countryCode, raw).Ok?
    ensures NormalisePhone(countryCode, NormalisePhone(countryCode, raw).value) == NormalisePhone(countryCode, raw)
  {
    var p := NormalisePhone(countryCode, raw).value;
    assert Plain(p);
    StripPlain(p);
    KeepDigitsOfDigits(p);
    assert PhoneDigits(p) == p;
  }

  /** A UK number written in international form, `+44` then a national part
      without `+` or `x`, becomes the national digits behind one leading `0`. */
  lemma GbInternationalForm(national: string)
    requires Plain(national)
    requires |KeepDigits(national)| > 0
    ensures NormalisePhone("GB", "+44" + national) ==
      Ok(if KeepDigits(national)[0] == '0' then KeepDigits(national) else "0" + KeepDigits(national))
  {
    StripLeadingDialCode("+44", national);
    StripPlain(national);
  }

  /** A US number in international form with an extension, `+1`, a national part
      without `+` or `x`, then `x` and word characters, keeps the national digits
      (at most the last ten). */
  lemma UsInternationalFormWithExtension(national: string, extension: string)
    requires Plain(national)
    requires |extension| > 0
    requires forall i :: 0 <= i < |extension| ==> IsWordChar(extension[i])
    ensures NormalisePhone("US", "+1" + national + "x" + extension) ==
      Ok(SliceFromEnd(KeepDigits(national), 10))
  {
    assert "+1" + national + "x" + extension == "+1" + (national + ("x" + extension));
    StripLeadingDialCode("+1", national + ("x" + extension));
    StripPlainPrefix(national, "x" + extension);
    StripExtension(extension);
    assert national + "" == national;
  }
}
