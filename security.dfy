/** Data masking for display and the input validators of the security utilities
    (backend/app/utils/security.py, classes DataMasking and InputValidator).
    Python strings are sequences of code points; so are Dafny strings here. */
module Security {
  import opened Base
  import opened Text

  /** A run of `k` asterisks (Python's `'*' * k`). */
  function Stars(k: nat): (r: string)
    ensures |r| == k
    ensures forall i :: 0 <= i < k ==> r[i] == '*'
  {
    if k == 0 then "" else Stars(k - 1) + "*"
  }

  // ---------------------------------------------------------------- DataMasking

  /** Phone number: shorter than 11 characters is shown as is; otherwise the
      fourth to seventh characters become '*' and the length is kept. */
  function MaskPhone(phone: string): (r: string)
    ensures |phone| < 11 ==> r == phone
    ensures |r| == |phone|
    ensures |phone| >= 11 ==>
      forall i :: 0 <= i < |r| ==> r[i] == if 3 <= i < 7 then '*' else phone[i]
  {
    if |phone| < 11 then phone else phone[..3] + "****" + phone[7..]
  }

  /** Masking a masked phone number changes nothing. */
  lemma MaskPhoneIdempotent(phone: string)
    ensures MaskPhone(MaskPhone(phone)) == MaskPhone(phone)
  {
    var once := MaskPhone(phone);
    var twice := MaskPhone(once);
    if |phone| >= 11 {
      assert forall i :: 0 <= i < |twice| ==> twice[i] == once[i];
    }
  }

  /** Identity card number: shorter than 18 is shown as is; otherwise the
      seventh to fourteenth characters become '*' and the length is kept. */
  function MaskIdCard(idCard: string): (r: string)
    ensures |idCard| < 18 ==> r == idCard
    ensures |r| == |idCard|
    ensures |idCard| >= 18 ==>
      forall i :: 0 <= i < |r| ==> r[i] == if 6 <= i < 14 then '*' else idCard[i]
  {
    if |idCard| < 18 then idCard else idCard[..6] + "********" + idCard[14..]
  }

  lemma MaskIdCardIdempotent(idCard: string)
    ensures MaskIdCard(MaskIdCard(idCard)) == MaskIdCard(idCard)
  {
    var once := MaskIdCard(idCard);
    var twice := MaskIdCard(once);
    if |idCard| >= 18 {
      assert forall i :: 0 <= i < |twice| ==> twice[i] == once[i];
    }
  }

  const BankCardMiddle: string := " **** **** "

  /** Bank card number: shorter than 16 is shown as is; otherwise the first four
      and the last four characters around a fixed " **** **** ", 19 in all. */
  function MaskBankCard(card: string): (r: string)
    ensures |card| < 16 ==> r == card
    ensures |card| >= 16 ==>
      && |r| == 19
      && r[..4] == card[..4]
      && r[4..15] == BankCardMiddle
      && r[15..] == card[|card| - 4..]
  {
    if |card| < 16 then card else card[..4] + BankCardMiddle + card[|card| - 4..]
  }

  lemma MaskBankCardIdempotent(card: string)
    ensures MaskBankCard(MaskBankCard(card)) == MaskBankCard(card)
  {
    var once := MaskBankCard(card);
    if |card| >= 16 {
      assert once == once[..4] + once[4..15] + once[15..];
    }
  }

  /** Personal name: empty or one character is shown as is; two characters keep
      the first and mask the second; longer names keep the first and the last. */
  function MaskName(name: string): (r: string)
    ensures |name| <= 1 ==> r == name
    ensures |r| == |name|
    ensures |name| >= 2 ==>
      && r[0] == name[0]
      && (forall i :: 1 <= i < |name| - 1 ==> r[i] == '*')
      && r[|name| - 1] == if |name| == 2 then '*' else name[|name| - 1]
  {
    if name == "" then name
    else if |name| == 2 then [name[0]] + "*"
    else if |name| > 2 then [name[0]] + Stars(|name| - 2) + [name[|name| - 1]]
    else name
  }

  lemma MaskNameIdempotent(name: string)
    ensures MaskName(MaskName(name)) == MaskName(name)
  {
    var once := MaskName(name);
    var twice := MaskName(once);
    assert forall i :: 0 <= i < |twice| ==> twice[i] == once[i];
  }

  datatype MaskError = IndexError

  /** The local part of an address as masked: its first character, then '*' for
      the rest, except that a local part longer than two keeps its last one. */
  function MaskLocalPart(local: string): (r: string)
    requires |local| >= 1
    ensures |local| <= 2 ==> r == [local[0], '*']
    ensures |local| > 2 ==>
      && |r| == |local| && r[0] == local[0] && r[|r| - 1] == local[|local| - 1]
      && forall i :: 1 <= i < |r| - 1 ==> r[i] == '*'
    ensures '@' !in local ==> '@' !in r
  {
    if |local| <= 2 then [local[0]] + "*"
    else [local[0]] + Stars(|local| - 2) + [local[|local| - 1]]
  }

  /** E-mail address: returned as is unless it holds exactly one '@'; then the
      local part is masked and the domain kept. An empty local part makes the
      Python code index an empty string (IndexError). */
  function MaskEmail(email: string): (r: Result<string, MaskError>)
    ensures Count(email, '@') != 1 ==> r == Ok(email)
  {
    if email == "" || '@' !in email then Ok(email)
    else
      var parts := Split(email, '@');
      if |parts| != 2 then Ok(email)
      else
        var local := parts[0];
        var domain := parts[1];
        if local == "" then Err(IndexError)
        else Ok(MaskLocalPart(local) + "@" + domain)
  }

  /** An address `local@domain` with one '@' keeps its domain verbatim after the
      one '@' of the result; the local part is masked, or IndexError when empty. */
  lemma MaskEmailOfAddress(local: string, domain: string)
    requires '@' !in local && '@' !in domain
    ensures local == "" ==> MaskEmail(local + "@" + domain) == Err(IndexError)
    ensures local != "" ==> MaskEmail(local + "@" + domain) == Ok(MaskLocalPart(local) + "@" + domain)
  {
    var email := local + "@" + domain;
    SplitAtFirst(local, domain, '@');
    SplitNoSeparator(domain, '@');
    assert email[|local|] == '@';
  }

  /** Masking a masked address again changes nothing. */
  lemma MaskEmailIdempotent(local: string, domain: string)
    requires '@' !in local && '@' !in domain && local != ""
    ensures MaskEmail(MaskLocalPart(local) + "@" + domain) == MaskEmail(local + "@" + domain)
  {
    var m := MaskLocalPart(local);
    MaskEmailOfAddress(local, domain);
    MaskEmailOfAddress(m, domain);
    var mm := MaskLocalPart(m);
    assert |mm| == |m|;
    assert forall i :: 0 <= i < |m| ==> mm[i] == m[i];
  }

  // ------------------------------------------------------------- InputValidator

  predicate IsUpper(ch: char) { 'A' <= ch <= 'Z' }
  predicate IsLower(ch: char) { 'a' <= ch <= 'z' }

  const ComplexityMessage: string := "密码必须包含大写字母、小写字母和数字"

  /** The default of `min_length`. */
  const DefaultMinLength: int := 8

  function LengthMessage(minLength: nat): string
  {
    "密码长度至少为 " + NatToString(minLength) + " 位"
  }

  /** Password strength: too short fails with the length message first; then it
      must hold an upper-case letter, a lower-case letter and a digit;
      success is `(True, "")`, and only success has an empty message. */
  function IsValidPassword(password: string, minLength: int): (r: (bool, string))
    ensures r.0 <==>
      && |password| >= minLength
      && (exists i :: 0 <= i < |password| && IsUpper(password[i]))
      && (exists i :: 0 <= i < |password| && IsLower(password[i]))
      && (exists i :: 0 <= i < |password| && IsDigit(password[i]))
    ensures |password| < minLength ==> r == (false, LengthMessage(minLength))
    ensures |password| >= minLength && !r.0 ==> r.1 == ComplexityMessage
    ensures r.0 <==> r.1 == ""
  {
    if |password| < minLength then (false, LengthMessage(minLength))
    else if !(HasSome(password, IsUpper) && HasSome(password, IsLower) && HasSome(password, IsDigit)) then
      (false, ComplexityMessage)
    else (true, "")
  }

  /** Called with the default minimum, a password shorter than 8 characters is
      refused with the message "at least 8". */
  lemma DefaultLengthMessage(password: string)
    requires |password| < DefaultMinLength
    ensures IsValidPassword(password, DefaultMinLength) == (false, "密码长度至少为 8 位")
  {
    assert NatToString(8) == "8";
    calc {
      LengthMessage(8);
      "密码长度至少为 " + "8" + " 位";
      "密码长度至少为 8 位";
    }
  }

  /** Python's `any(p(c) for c in s)`, scanning left to right. */
  function HasSome(s: string, p: char -> bool): (b: bool)
    ensures b <==> exists i :: 0 <= i < |s| && p(s[i])
  {
    if s == [] then false
    else if p(s[0]) then true
    else
      var rest := HasSome(s[1..], p);
      assert rest <==> exists i :: 0 <= i < |s| - 1 && p(s[1..][i]);
      assert (exists i :: 0 <= i < |s| - 1 && p(s[1..][i])) <==> (exists i :: 1 <= i < |s| && p(s[i])) by {
        forall i | 0 <= i < |s| - 1 ensures s[1..][i] == s[i + 1] { }
        if exists i :: 1 <= i < |s| && p(s[i]) {
          var i :| 1 <= i < |s| && p(s[i]);
          assert p(s[1..][i - 1]);
        }
      }
      rest
  }

  /** Python's `re.match(r'^1[3-9]\d{9}$', phone)` for a mainland-China mobile
      number: '1', one of 3..9, nine more digits, then the end of the string
      or a single final newline (which `$` also accepts). */
  predicate PhonePattern(phone: string)
  {
    && (|phone| == 11 || (|phone| == 12 && phone[11] == '\n'))
    && phone[0] == '1'
    && '3' <= phone[1] <= '9'
    && forall i :: 2 <= i < 11 ==> IsDigit(phone[i])
  }

  /** One step of the matcher: at position `pos` of the pattern, does the rest match. */
  function PhoneFrom(phone: string, pos: nat): bool
    requires pos <= |phone|
    decreases |phone| - pos
  {
    if pos == 11 then pos == |phone| || (pos + 1 == |phone| && phone[pos] == '\n')
    else if pos == |phone| then false
    else
      var ch := phone[pos];
      var ok := if pos == 0 then ch == '1' else if pos == 1 then '3' <= ch <= '9' else IsDigit(ch);
      ok && PhoneFrom(phone, pos + 1)
  }

  lemma {:induction false} PhoneFromMeans(phone: string, pos: nat)
    requires pos <= 11 && pos <= |phone|
    ensures PhoneFrom(phone, pos) <==>
      && (|phone| == 11 || (|phone| == 12 && phone[11] == '\n'))
      && (pos <= 0 ==> phone[0] == '1')
      && (pos <= 1 ==> '3' <= phone[1] <= '9')
      && (forall i :: 2 <= i < 11 && pos <= i ==> IsDigit(phone[i]))
    decreases 11 - pos
  {
    if pos < 11 && pos < |phone| {
      PhoneFromMeans(phone, pos + 1);
    }
  }

  /** The validator accepts exactly the strings of the phone pattern. */
  function IsValidPhone(phone: string): (ok: bool)
    ensures ok <==> PhonePattern(phone)
  {
    PhoneFromMeans(phone, 0);
    PhoneFrom(phone, 0)
  }
}
