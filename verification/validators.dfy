/**
 * The Brazilian field validators and input masks of the member form: CPF
 * (the individual taxpayer number, eleven digits with two mod-11 check
 * digits), telephone numbers and e-mail addresses.
 *
 * Every function takes `Option<string>` because the form hands them
 * `null`/`undefined` as well as strings.
 */
module Validators {
  import opened Text
  import opened Seqs
  import opened Wrappers

  function Min(a: int, b: int): int {
    if a <= b then a else b
  }

  /**
   * The shared body of `limparCPF` and `limparTelefone`: a missing or empty
   * input gives the empty string, otherwise the digit characters, in order.
   */
  function OnlyDigits(input: Option<string>): (r: string)
    ensures AllDigits(r)
    ensures input.None? || input == Some("") ==> r == ""
  {
    match input
    case None => ""
    case Some(s) => if s == "" then "" else Digits(s)
  }

  /** `limparCPF`: the digits of a CPF typed with or without its punctuation. */
  function LimparCpf(cpf: Option<string>): (r: string)
    ensures AllDigits(r)
    ensures cpf.None? || cpf == Some("") ==> r == ""
  {
    OnlyDigits(cpf)
  }

  /** `limparTelefone`: the digits of a telephone number. */
  function LimparTelefone(telefone: Option<string>): (r: string)
    ensures AllDigits(r)
    ensures telefone.None? || telefone == Some("") ==> r == ""
  {
    OnlyDigits(telefone)
  }

  /**
   * Cleaning keeps exactly the digits of the input: the result is made of
   * digits, keeps their order and drops none of them.
   */
  lemma OnlyDigitsCharacterised(input: Option<string>)
    ensures AllDigits(OnlyDigits(input))
    ensures input.Some? ==> Subseq(OnlyDigits(input), input.value)
    ensures input.Some? ==> |OnlyDigits(input)| == Count(input.value, IsDigit)
  {
    if input.Some? {
      DigitsCharacterised(input.value);
    }
  }

  /** Cleaning an already clean value changes nothing. */
  lemma OnlyDigitsIdempotent(input: Option<string>)
    ensures OnlyDigits(Some(OnlyDigits(input))) == OnlyDigits(input)
  {
    DigitsOfAllDigits(OnlyDigits(input));
  }

  lemma LimparCpfIdempotent(cpf: Option<string>)
    ensures LimparCpf(Some(LimparCpf(cpf))) == LimparCpf(cpf)
  {
    OnlyDigitsIdempotent(cpf);
  }

  lemma LimparTelefoneIdempotent(telefone: Option<string>)
    ensures LimparTelefone(Some(LimparTelefone(telefone))) == LimparTelefone(telefone)
  {
    OnlyDigitsIdempotent(telefone);
  }

  /** A slice of a digit string strips to itself. */
  lemma DigitsOfSlice(l: string, a: int, b: int)
    requires AllDigits(l) && 0 <= a <= b <= |l|
    ensures Digits(l[a..b]) == l[a..b]
  {
    AllDigitsSlice(l, a, b);
    DigitsOfAllDigits(l[a..b]);
  }

  /**
   * Appending a digit-free separator and the next group of a digit string
   * to a text that strips to the groups before extends the stripped text by
   * that group.
   */
  lemma DigitsExtend(l: string, x: string, sep: string, c: nat, d: nat)
    requires AllDigits(l) && c <= d <= |l|
    requires NoDigits(sep) && Digits(x) == l[..c]
    ensures Digits(x + sep + l[c..d]) == l[..d]
  {
    DigitsSeparated(x, sep, l[c..d]);
    DigitsOfSlice(l, c, d);
    assert l[..c] + l[c..d] == l[..d];
  }

  // ---------------------------------------------------------------- CPF mask

  /** The mask `000.000.000-00` applied progressively to a string of digits. */
  function CpfMask(l: string): (r: string)
    ensures |r| <= 14
    ensures r == [] <==> l == []
  {
    if |l| <= 3 then l
    else if |l| <= 6 then l[..3] + "." + l[3..]
    else if |l| <= 9 then l[..3] + "." + l[3..6] + "." + l[6..]
    else l[..3] + "." + l[3..6] + "." + l[6..9] + "-" + l[9..Min(11, |l|)]
  }

  /** `formatarCPF`: the progressive mask over the digits of the input. */
  function FormatarCpf(cpf: Option<string>): (r: string)
    ensures |r| <= 14
  {
    CpfMask(LimparCpf(cpf))
  }

  /** The complete mask `ddd.ddd.ddd-dd`. */
  predicate CpfMasked(s: string) {
    |s| == 14
    && forall i :: 0 <= i < 14 ==>
         if i == 3 || i == 7 then s[i] == '.'
         else if i == 11 then s[i] == '-'
         else IsDigit(s[i])
  }

  /** Stripping the mask of a digit string gives back its first (at most) eleven digits. */
  lemma CpfMaskDigits(l: string)
    requires AllDigits(l)
    ensures Digits(CpfMask(l)) == l[..Min(11, |l|)]
  {
    if |l| <= 3 {
      DigitsOfAllDigits(l);
      assert l[..|l|] == l;
    } else {
      DigitsOfSlice(l, 0, 3);
      assert l[0..3] == l[..3];
      if |l| <= 6 {
        DigitsExtend(l, l[..3], ".", 3, |l|);
        assert l[3..|l|] == l[3..];
      } else {
        DigitsExtend(l, l[..3], ".", 3, 6);
        if |l| <= 9 {
          DigitsExtend(l, l[..3] + "." + l[3..6], ".", 6, |l|);
          assert l[6..|l|] == l[6..];
        } else {
          DigitsExtend(l, l[..3] + "." + l[3..6], ".", 6, 9);
          DigitsExtend(l, l[..3] + "." + l[3..6] + "." + l[6..9], "-", 9, Min(11, |l|));
        }
      }
    }
  }

  /** The mask reads no digit after the eleventh. */
  lemma CpfMaskTruncate(l: string)
    ensures CpfMask(l[..Min(11, |l|)]) == CpfMask(l)
  {
    if |l| > 11 {
      var t := l[..11];
      assert t[..3] == l[..3] && t[3..6] == l[3..6] && t[6..9] == l[6..9] && t[9..11] == l[9..11];
    } else {
      assert l[..|l|] == l;
    }
  }

  /** Stripping `formatarCPF`'s output gives back the first (at most) eleven digits of the input. */
  lemma FormatarCpfDigits(cpf: Option<string>)
    ensures var l := LimparCpf(cpf);
            Digits(FormatarCpf(cpf)) == l[..Min(11, |l|)]
  {
    CpfMaskDigits(LimparCpf(cpf));
  }

  /** Eleven digits produce the full mask, which strips back to those digits. */
  lemma FormatarCpfComplete(cpf: Option<string>)
    requires |LimparCpf(cpf)| == 11
    ensures CpfMasked(FormatarCpf(cpf))
    ensures Digits(FormatarCpf(cpf)) == LimparCpf(cpf)
  {
    var l := LimparCpf(cpf);
    CpfMaskDigits(l);
    assert l[..11] == l;
  }

  /** Masking a masked value changes nothing. */
  lemma FormatarCpfIdempotent(cpf: Option<string>)
    ensures FormatarCpf(Some(FormatarCpf(cpf))) == FormatarCpf(cpf)
  {
    var l := LimparCpf(cpf);
    CpfMaskDigits(l);
    CpfMaskTruncate(l);
  }

  /** A fully masked CPF is its four digit groups with the punctuation between them. */
  lemma CpfMaskedParts(s: string)
    requires CpfMasked(s)
    ensures s == s[..3] + "." + s[4..7] + "." + s[8..11] + "-" + s[12..]
    ensures AllDigits(s[..3]) && AllDigits(s[4..7]) && AllDigits(s[8..11]) && AllDigits(s[12..])
  {
    assert s[3] == '.' && s[7] == '.' && s[11] == '-';
    assert forall k :: 0 <= k < 3 ==> IsDigit(s[..3][k]) && IsDigit(s[4..7][k]) && IsDigit(s[8..11][k]);
    assert forall k :: 0 <= k < 2 ==> IsDigit(s[12..][k]);
  }

  /** A fully masked CPF is a fixed point of the mask. */
  lemma CpfMaskedFixedPoint(s: string)
    requires CpfMasked(s)
    ensures FormatarCpf(Some(s)) == s
  {
    CpfMaskedParts(s);
    var p1, p2, p3, p4 := s[..3], s[4..7], s[8..11], s[12..];
    LimparMasked(p1, p2, p3, p4);
    var d := p1 + p2 + p3 + p4;
    assert d[..3] == p1 && d[3..6] == p2 && d[6..9] == p3 && d[9..11] == p4;
  }

  /** Stripping a masked CPF leaves its four digit groups. */
  lemma LimparMasked(p1: string, p2: string, p3: string, p4: string)
    requires AllDigits(p1) && AllDigits(p2) && AllDigits(p3) && AllDigits(p4)
    ensures LimparCpf(Some(p1 + "." + p2 + "." + p3 + "-" + p4)) == p1 + p2 + p3 + p4
  {
    DigitsOfAllDigits(p1);
    DigitsOfAllDigits(p2);
    DigitsOfAllDigits(p3);
    DigitsOfAllDigits(p4);
    DigitsSeparated(p1 + "." + p2 + "." + p3, "-", p4);
    DigitsSeparated(p1 + "." + p2, ".", p3);
    DigitsSeparated(p1, ".", p2);
  }

  // ------------------------------------------------------------ CPF validity

  /** The regular expression `^(\d)\1{10}$` on eleven digits: one digit repeated. */
  predicate AllEqual(d: string) {
    |d| > 0 && forall i :: 0 <= i < |d| ==> d[i] == d[0]
  }

  /** One term of the weighted sum: a digit's value times its weight. */
  function Term(c: char, weight: nat): nat
    requires IsDigit(c)
  {
    DigitValue(c) * weight
  }

  /** Σ d[i] * (top − i): the weighted digit sum of the check-digit rule. */
  function WeightedSum(d: string, top: nat): nat
    requires AllDigits(d) && |d| < top
  {
    if d == [] then 0
    else
      var n := |d| - 1;
      AllDigitsSlice(d, 0, n);
      WeightedSum(d[..n], top) + Term(d[n], top - n)
  }

  /** `11 − (sum mod 11)`, replaced by 0 when it is 10 or 11. */
  function CheckDigit(sum: nat): (r: nat)
    ensures r <= 9
    ensures r == 0 <==> sum % 11 <= 1
    ensures r != 0 ==> (sum + r) % 11 == 0
  {
    var r := 11 - sum % 11;
    if r >= 10 then 0 else r
  }

  /**
   * A valid CPF, as digits: eleven of them, not all equal, the tenth the
   * check digit of the first nine (weights 10..2) and the eleventh the check
   * digit of the first ten (weights 11..2).
   */
  predicate CpfDigitsValid(d: string) {
    && |d| == 11 && AllDigits(d) && !AllEqual(d)
    && DigitValue(d[9]) == CheckDigit(WeightedSum(d[..9], 10))
    && DigitValue(d[10]) == CheckDigit(WeightedSum(d[..10], 11))
  }

  /**
   * The summation loop of `validarCPF`: the weighted sum of the first `n`
   * digits, the first weighted `top`.
   */
  method SumWeighted(d: string, n: nat, top: nat) returns (soma: nat)
    requires AllDigits(d) && n <= |d| && n < top
    ensures AllDigits(d[..n]) && soma == WeightedSum(d[..n], top)
  {
    soma := 0;
    var i := 0;
    while i < n
      invariant 0 <= i <= n
      invariant AllDigits(d[..i]) && soma == WeightedSum(d[..i], top)
    {
      AllDigitsSlice(d, 0, i + 1);
      assert d[..i + 1][..i] == d[..i];
      soma := soma + Term(d[i], top - i);
      i := i + 1;
    }
  }

  /**
   * `validarCPF`: eleven digits after cleaning, not all equal, and both
   * check digits as the mod-11 rule computes them.
   */
  method ValidarCpf(cpf: Option<string>) returns (ok: bool)
    ensures ok <==> CpfDigitsValid(LimparCpf(cpf))
    ensures |LimparCpf(cpf)| != 11 ==> !ok
    ensures AllEqual(LimparCpf(cpf)) ==> !ok
  {
    var limpo := LimparCpf(cpf);
    if |limpo| != 11 {
      return false;
    }
    if forall i | 0 <= i < 11 :: limpo[i] == limpo[0] {
      return false;
    }
    var soma := SumWeighted(limpo, 9, 10);
    var digito1 := 11 - soma % 11;
    if digito1 >= 10 {
      digito1 := 0;
    }
    assert digito1 == CheckDigit(WeightedSum(limpo[..9], 10));
    if digito1 != DigitValue(limpo[9]) {
      return false;
    }
    soma := SumWeighted(limpo, 10, 11);
    var digito2 := 11 - soma % 11;
    if digito2 >= 10 {
      digito2 := 0;
    }
    assert digito2 == CheckDigit(WeightedSum(limpo[..10], 11));
    return digito2 == DigitValue(limpo[10]);
  }

  /** The digit character with value `n`. */
  function DigitChar(n: nat): (c: char)
    requires n <= 9
    ensures IsDigit(c) && DigitValue(c) == n
  {
    ('0' as int + n) as char
  }

  /** The nine-digit base followed by the two check digits computed from it. */
  function CompleteCpf(base: string): (d: string)
    requires |base| == 9 && AllDigits(base)
    ensures |d| == 11 && d[..9] == base && AllDigits(d)
  {
    var d1 := DigitChar(CheckDigit(WeightedSum(base, 10)));
    var d2 := DigitChar(CheckDigit(WeightedSum(base + [d1], 11)));
    base + [d1, d2]
  }

  /**
   * The valid CPFs are exactly the completed bases that are not one repeated
   * digit: each base has one and only one valid completion.
   */
  lemma CpfValidIffCompleted(d: string)
    requires |d| == 11 && AllDigits(d)
    ensures CpfDigitsValid(d) <==> d == CompleteCpf(d[..9]) && !AllEqual(d)
  {
    var base := d[..9];
    assert d[..10] == base + [d[9]];
    assert d == base + [d[9], d[10]];
    var c := CompleteCpf(base);
    assert c[..10] == base + [c[9]];
  }

  /** The documentation's valid example, `111.444.777-35`. */
  lemma CpfDocExampleValid()
    ensures CpfDigitsValid(LimparCpf(Some("111.444.777-35")))
  {
    assert "111.444.777-35" == "111" + "." + "444" + "." + "777" + "-" + "35";
    LimparMasked("111", "444", "777", "35");
    assert "111" + "444" + "777" + "35" == "11144477735";
    ValidExampleDigits();
  }

  lemma ValidExampleDigits()
    ensures CpfDigitsValid("11144477735")
  {
    var d := "11144477735";
    assert d[..9] == "111444777";
    assert d[..10] == "1114447773";
    WeightedSumValues();
    assert d[3] != d[0];
  }

  /** The documentation's invalid example, `123.456.789-00`. */
  lemma CpfDocExampleInvalid()
    ensures !CpfDigitsValid(LimparCpf(Some("123.456.789-00")))
  {
    assert "123.456.789-00" == "123" + "." + "456" + "." + "789" + "-" + "00";
    LimparMasked("123", "456", "789", "00");
    assert "123" + "456" + "789" + "00" == "12345678900";
    InvalidExampleDigits();
  }

  lemma InvalidExampleDigits()
    ensures !CpfDigitsValid("12345678900")
  {
    var d := "12345678900";
    assert d[..10] == "1234567890";
    WeightedSumValues();
  }

  lemma WeightedSumValues()
    ensures WeightedSum("111444777", 10) == 162
    ensures WeightedSum("1114447773", 11) == 204
    ensures WeightedSum("1234567890", 11) == 255
  {
    ValidBaseSum();
    ValidFullSum();
    InvalidFullSum();
  }

  lemma ValidBaseSum()
    ensures WeightedSum("111444777", 10) == 162
  {
    assert "111444777"[..8] == "11144477";
    assert "11144477"[..7] == "1114447";
    assert "1114447"[..6] == "111444";
    assert "111444"[..5] == "11144";
    assert "11144"[..4] == "1114";
    assert "1114"[..3] == "111";
    assert "111"[..2] == "11";
    assert "11"[..1] == "1";
    assert "1"[..0] == "";
  }

  lemma ValidFullSum()
    ensures WeightedSum("1114447773", 11) == 204
  {
    assert "1114447773"[..9] == "111444777";
    assert "111444777"[..8] == "11144477";
    assert "11144477"[..7] == "1114447";
    assert "1114447"[..6] == "111444";
    assert "111444"[..5] == "11144";
    assert "11144"[..4] == "1114";
    assert "1114"[..3] == "111";
    assert "111"[..2] == "11";
    assert "11"[..1] == "1";
    assert "1"[..0] == "";
  }

  lemma InvalidFullSum()
    ensures WeightedSum("1234567890", 11) == 255
  {
    assert "1234567890"[..9] == "123456789";
    assert "123456789"[..8] == "12345678";
    assert "12345678"[..7] == "1234567";
    assert "1234567"[..6] == "123456";
    assert "123456"[..5] == "12345";
    assert "12345"[..4] == "1234";
    assert "1234"[..3] == "123";
    assert "123"[..2] == "12";
    assert "12"[..1] == "1";
    assert "1"[..0] == "";
  }

  /**
   * Masking a CPF of at most eleven digits does not change its validity; a
   * longer input loses its extra digits to the mask and may become valid.
   */
  lemma FormatarCpfKeepsValidity(cpf: Option<string>)
    requires |LimparCpf(cpf)| <= 11
    ensures CpfDigitsValid(LimparCpf(Some(FormatarCpf(cpf)))) == CpfDigitsValid(LimparCpf(cpf))
  {
    FormatarCpfDigits(cpf);
    var l := LimparCpf(cpf);
    assert l[..|l|] == l;
  }

  // ---------------------------------------------------------- telephone mask

  /** The mask `(00) 00000-0000` applied progressively to a string of digits. */
  function PhoneMask(l: string): (r: string)
    ensures |r| <= 15
    ensures r == "" <==> l == ""
  {
    if |l| == 0 then ""
    else if |l| <= 2 then "(" + l
    else if |l| <= 7 then "(" + l[..2] + ") " + l[2..]
    else "(" + l[..2] + ") " + l[2..7] + "-" + l[7..Min(11, |l|)]
  }

  /** `formatarTelefone`: the progressive mask over the digits of the input. */
  function FormatarTelefone(telefone: Option<string>): (r: string)
    ensures |r| <= 15
    ensures r == "" <==> LimparTelefone(telefone) == ""
  {
    PhoneMask(LimparTelefone(telefone))
  }

  /** The complete mask `(dd) ddddd-dddd`. */
  predicate PhoneMasked(s: string) {
    |s| == 15 && s[0] == '(' && s[3] == ')' && s[4] == ' ' && s[10] == '-'
    && AllDigits(s[1..3]) && AllDigits(s[5..10]) && AllDigits(s[11..])
  }

  /** Stripping the mask of a digit string gives back its first (at most) eleven digits. */
  lemma PhoneMaskDigits(l: string)
    requires AllDigits(l)
    ensures Digits(PhoneMask(l)) == l[..Min(11, |l|)]
  {
    if |l| == 0 {
    } else if |l| <= 2 {
      DigitsExtend(l, "", "(", 0, |l|);
      assert "" + "(" + l[0..|l|] == "(" + l;
    } else {
      DigitsExtend(l, "", "(", 0, 2);
      assert "" + "(" + l[0..2] == "(" + l[..2];
      if |l| <= 7 {
        DigitsExtend(l, "(" + l[..2], ") ", 2, |l|);
        assert l[2..|l|] == l[2..];
      } else {
        DigitsExtend(l, "(" + l[..2], ") ", 2, 7);
        DigitsExtend(l, "(" + l[..2] + ") " + l[2..7], "-", 7, Min(11, |l|));
      }
    }
  }

  /** The mask reads no digit after the eleventh. */
  lemma PhoneMaskTruncate(l: string)
    ensures PhoneMask(l[..Min(11, |l|)]) == PhoneMask(l)
  {
    if |l| > 11 {
      var t := l[..11];
      assert t[..2] == l[..2] && t[2..7] == l[2..7] && t[7..11] == l[7..11];
    } else {
      assert l[..|l|] == l;
    }
  }

  /** Stripping the masked value gives back the first (at most) eleven digits. */
  lemma FormatarTelefoneDigits(telefone: Option<string>)
    ensures var l := LimparTelefone(telefone);
            Digits(FormatarTelefone(telefone)) == l[..Min(11, |l|)]
  {
    PhoneMaskDigits(LimparTelefone(telefone));
  }

  /** Eleven digits produce the full mask, which strips back to those digits. */
  lemma FormatarTelefoneComplete(telefone: Option<string>)
    requires |LimparTelefone(telefone)| == 11
    ensures PhoneMasked(FormatarTelefone(telefone))
    ensures Digits(FormatarTelefone(telefone)) == LimparTelefone(telefone)
  {
    FormatarTelefoneDigits(telefone);
    var l := LimparTelefone(telefone);
    var r := FormatarTelefone(telefone);
    assert l[..11] == l;
    assert r[1..3] == l[..2];
    assert r[5..10] == l[2..7];
    assert r[11..] == l[7..11];
  }

  /** Short inputs: up to two digits open the parenthesis, up to seven close it. */
  lemma FormatarTelefoneShort(telefone: Option<string>)
    ensures var l := LimparTelefone(telefone);
            && (1 <= |l| <= 2 ==> FormatarTelefone(telefone) == "(" + l)
            && (3 <= |l| <= 7 ==> FormatarTelefone(telefone) == "(" + l[..2] + ") " + l[2..])
  {
  }

  /** Masking a masked value changes nothing. */
  lemma FormatarTelefoneIdempotent(telefone: Option<string>)
    ensures FormatarTelefone(Some(FormatarTelefone(telefone))) == FormatarTelefone(telefone)
  {
    var l := LimparTelefone(telefone);
    PhoneMaskDigits(l);
    PhoneMaskTruncate(l);
  }

  // ------------------------------------------------------- telephone validity

  /** `validarTelefone`: a landline (10 digits) or a mobile number (11 digits). */
  function ValidarTelefone(telefone: Option<string>): (ok: bool)
    ensures ok <==> 10 <= Count(telefone.GetOr(""), IsDigit) <= 11
  {
    var limpo := LimparTelefone(telefone);
    OnlyDigitsCharacterised(telefone);
    |limpo| >= 10 && |limpo| <= 11
  }

  /**
   * Masking keeps a number's validity when it has at most eleven digits, and
   * a longer number becomes a valid masked one.
   */
  lemma FormatarTelefoneValidity(telefone: Option<string>)
    ensures |LimparTelefone(telefone)| <= 11 ==>
              ValidarTelefone(Some(FormatarTelefone(telefone))) == ValidarTelefone(telefone)
    ensures |LimparTelefone(telefone)| > 11 ==> ValidarTelefone(Some(FormatarTelefone(telefone)))
  {
    FormatarTelefoneDigits(telefone);
    var l := LimparTelefone(telefone);
    var r := FormatarTelefone(telefone);
    assert LimparTelefone(Some(r)) == l[..Min(11, |l|)] by {
      if r == "" {
        assert l == "";
      }
    }
  }

  // ------------------------------------------------------------------ e-mail

  /** `[^\s@]+`: a non-empty run of characters that are neither space nor `@`. */
  predicate EmailAtom(s: string) {
    |s| > 0 && forall i :: 0 <= i < |s| ==> s[i] != '@' && !IsJsSpace(s[i])
  }

  /**
   * The regular expression `^[^\s@]+@[^\s@]+\.[^\s@]+$`, read as a split of
   * the whole string into atom, `@`, atom, `.`, atom.
   */
  ghost predicate MatchesEmailPattern(s: string) {
    exists i, j :: 0 <= i < j < |s| && s[i] == '@' && s[j] == '.'
                   && EmailAtom(s[..i]) && EmailAtom(s[i + 1..j]) && EmailAtom(s[j + 1..])
  }

  /** The part after the `@` has a dot that is neither its first nor its last character. */
  predicate InnerDot(domain: string) {
    exists k :: 0 < k < |domain| - 1 && domain[k] == '.'
  }

  /**
   * `validarEmail`: an absent or empty address is accepted (the field is
   * optional); otherwise the address has no white space, exactly one `@`
   * with something before it, and a dot strictly inside the part after it.
   */
  function ValidarEmail(email: Option<string>): (ok: bool)
    ensures email.None? || email == Some("") ==> ok
  {
    match email
    case None => true
    case Some(s) =>
      if s == "" then true
      else
        var at := IndexOf(s, '@');
        && (forall i :: 0 <= i < |s| ==> !IsJsSpace(s[i]))
        && 0 < at < |s|
        && '@' !in s[at + 1..]
        && InnerDot(s[at + 1..])
  }

  /** Every address the direct check accepts matches the regular expression. */
  lemma ValidarEmailSound(s: string)
    requires s != "" && ValidarEmail(Some(s))
    ensures MatchesEmailPattern(s)
  {
    var at := IndexOf(s, '@');
    var domain := s[at + 1..];
    var k :| 0 < k < |domain| - 1 && domain[k] == '.';
    var j := at + 1 + k;
    assert s[j] == domain[k];
    assert s[at + 1..j] == domain[..k];
    assert s[j + 1..] == domain[k + 1..];
    assert EmailAtom(s[..at]);
    assert EmailAtom(s[at + 1..j]);
    assert EmailAtom(s[j + 1..]);
  }

  /** The characters of an atom found at positions `a` to `b` of `s`. */
  lemma AtomAt(s: string, a: nat, b: nat)
    requires a <= b <= |s| && EmailAtom(s[a..b])
    ensures forall t :: a <= t < b ==> s[t] != '@' && !IsJsSpace(s[t])
  {
    forall t | a <= t < b ensures s[t] != '@' && !IsJsSpace(s[t]) {
      assert s[t] == s[a..b][t - a];
    }
  }

  /** An address split as atom, `@`, atom, `.`, atom at positions `i` and `j` passes the direct check. */
  lemma ValidarEmailAt(s: string, i: nat, j: nat)
    requires i < j < |s| && s[i] == '@' && s[j] == '.'
    requires EmailAtom(s[..i]) && EmailAtom(s[i + 1..j]) && EmailAtom(s[j + 1..])
    ensures ValidarEmail(Some(s))
  {
    assert s[..i] == s[0..i];
    AtomAt(s, 0, i);
    AtomAt(s, i + 1, j);
    assert s[j + 1..] == s[j + 1..|s|];
    AtomAt(s, j + 1, |s|);
    assert forall t :: 0 <= t < |s| ==> !IsJsSpace(s[t]) by {
      forall t | 0 <= t < |s| ensures !IsJsSpace(s[t]) {
        if t == i || t == j {
        }
      }
    }
    assert s == s[..i] + ['@'] + s[i + 1..];
    IndexOfAfterPrefix(s[..i], '@', s[i + 1..]);
    var domain := s[i + 1..];
    assert InnerDot(domain) by {
      assert domain[j - i - 1] == '.';
    }
    assert '@' !in domain by {
      forall t | 0 <= t < |domain| ensures domain[t] != '@' {
        assert domain[t] == s[i + 1 + t];
      }
    }
  }

  /** Every address matching the regular expression passes the direct check. */
  lemma ValidarEmailComplete(s: string)
    requires MatchesEmailPattern(s)
    ensures ValidarEmail(Some(s))
  {
    var i, j :| 0 <= i < j < |s| && s[i] == '@' && s[j] == '.'
                && EmailAtom(s[..i]) && EmailAtom(s[i + 1..j]) && EmailAtom(s[j + 1..]);
    ValidarEmailAt(s, i, j);
  }

  /** The direct check agrees with the regular expression, in both directions. */
  lemma ValidarEmailMatchesPattern(s: string)
    requires s != ""
    ensures ValidarEmail(Some(s)) <==> MatchesEmailPattern(s)
  {
    if ValidarEmail(Some(s)) {
      ValidarEmailSound(s);
    }
    if MatchesEmailPattern(s) {
      ValidarEmailComplete(s);
    }
  }
}
