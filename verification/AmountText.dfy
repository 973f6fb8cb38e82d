/** Printing raw token amounts (cli/src/main.rs) and instruction paths (graced/src/transaction/instruction.rs). */
module AmountText {
  import opened Primitives

  // ---------------------------------------------------------------------------
  // Decimal text
  // ---------------------------------------------------------------------------

  predicate IsDigit(c: char) {
    '0' <= c <= '9'
  }

  predicate AllDigits(s: string) {
    forall k :: 0 <= k < |s| ==> IsDigit(s[k])
  }

  function DigitChar(d: nat): (c: char)
    requires d < 10
    ensures IsDigit(c) && DigitValue(c) == d
  {
    '0' + (d as char)
  }

  function DigitValue(c: char): int {
    c as int - '0' as int
  }

  /** `to_string`. */
  function Digits(n: nat): (s: string)
    ensures AllDigits(s) && s != ""
  {
    if n < 10 then [DigitChar(n)] else Digits(n / 10) + [DigitChar(n % 10)]
  }

  /** Reading decimal digits. */
  function ToNat(s: string): (n: nat)
    requires AllDigits(s)
  {
    if s == "" then 0 else 10 * ToNat(s[..|s| - 1]) + DigitValue(s[|s| - 1])
  }

  lemma {:induction false} ReadingDigits(n: nat)
    ensures ToNat(Digits(n)) == n
    decreases n
  {
    if n >= 10 {
      ReadingDigits(n / 10);
      assert Digits(n)[..|Digits(n)| - 1] == Digits(n / 10);
    }
  }

  /** Only zero starts with a zero, and then it is the whole text. */
  lemma {:induction false} NoLeadingZero(n: nat)
    ensures Digits(n)[0] == '0' <==> n == 0
    ensures Digits(0) == "0"
    decreases n
  {
    if n >= 10 {
      NoLeadingZero(n / 10);
    }
  }

  function Pow10(n: nat): (p: nat)
    ensures p > 0
  {
    if n == 0 then 1 else 10 * Pow10(n - 1)
  }

  // ---------------------------------------------------------------------------
  // commas
  // ---------------------------------------------------------------------------

  /** Digits in groups of three from the right. */
  function Group(s: string): string {
    if |s| <= 3 then s else Group(s[..|s| - 3]) + "," + s[|s| - 3..]
  }

  function Commas(n: nat): string {
    Group(Digits(n))
  }

  lemma {:induction false} GroupPrepend(c: char, s: string)
    ensures Group([c] + s) == [c] + (if s != "" && |s| % 3 == 0 then "," else "") + Group(s)
    decreases |s|
  {
    if |s| >= 3 {
      assert ([c] + s)[..|s| - 2] == [c] + s[..|s| - 3];
      assert ([c] + s)[|s| - 2..] == s[|s| - 3..];
      GroupPrepend(c, s[..|s| - 3]);
      if |s| == 3 {
        assert s[..0] == "";
      }
    }
  }

  function Reverse(s: string): (r: string)
    ensures |r| == |s| && forall k :: 0 <= k < |s| ==> r[k] == s[|s| - 1 - k]
  {
    seq(|s|, k requires 0 <= k < |s| => s[|s| - 1 - k])
  }

  /** `commas`: push the digits from the right, a comma before every third, and reverse. */
  method PrintCommas(n: nat) returns (text: string)
    ensures text == Commas(n)
  {
    hide Reverse, Group, Digits;
    var s := Digits(n);
    var rev := Reverse(s);
    var out := "";
    ReverseEmpty();
    assert s[|s|..] == "";
    for i := 0 to |rev|
      invariant Reverse(out) == Group(s[|s| - i..])
    {
      assert s[|s| - (i + 1)..] == [rev[i]] + s[|s| - i..];
      GroupPrepend(rev[i], s[|s| - i..]);
      if i != 0 && i % 3 == 0 {
        ReversePush(out, ',');
        out := out + [','];
      }
      ReversePush(out, rev[i]);
      out := out + [rev[i]];
    }
    assert s[|s| - |rev|..] == s;
    text := Reverse(out);
  }

  lemma ReverseEmpty()
    ensures Reverse("") == "" && Group("") == ""
  {
  }

  lemma ReversePush(s: string, c: char)
    ensures Reverse(s + [c]) == [c] + Reverse(s)
  {
  }

  /** Dropping the commas. */
  function Strip(s: string): string {
    if s == "" then "" else
      Strip(s[..|s| - 1]) + (if s[|s| - 1] == ',' then "" else [s[|s| - 1]])
  }

  lemma {:induction false} StripAppend(a: string, b: string)
    ensures Strip(a + b) == Strip(a) + Strip(b)
    decreases |b|
  {
    if b == "" {
      assert a + b == a;
    } else {
      assert (a + b)[..|a + b| - 1] == a + b[..|b| - 1];
      StripAppend(a, b[..|b| - 1]);
    }
  }

  lemma {:induction false} StripKeeps(s: string)
    requires ',' !in s
    ensures Strip(s) == s
    decreases |s|
  {
    if s != "" {
      StripKeeps(s[..|s| - 1]);
      assert s == s[..|s| - 1] + [s[|s| - 1]];
    }
  }

  lemma {:induction false} StripGroup(s: string)
    requires AllDigits(s)
    ensures Strip(Group(s)) == s
    decreases |s|
  {
    if |s| <= 3 {
      StripKeeps(s);
    } else {
      var head, tail := s[..|s| - 3], s[|s| - 3..];
      StripGroup(head);
      StripKeeps(tail);
      StripAppend(Group(head) + ",", tail);
      StripAppend(Group(head), ",");
      assert Strip(",") == Strip("") + "" by { assert ","[..0] == ""; }
      assert s == head + tail;
    }
  }

  /** Counting from the right, exactly every fourth character of a grouped number is a comma, and none leads it:
      every group after the first has three digits. */
  lemma {:induction false} GroupsOfThree(s: string)
    requires AllDigits(s)
    ensures var r := Group(s); forall j :: 0 <= j < |r| ==> (r[j] == ',' <==> (|r| - j) % 4 == 0)
    ensures s != "" ==> |Group(s)| % 4 != 0
    decreases |s|
  {
    if |s| > 3 {
      var head := s[..|s| - 3];
      GroupsOfThree(head);
      var r := Group(s);
      assert |r| == |Group(head)| + 4;
      forall j | 0 <= j < |r| ensures r[j] == ',' <==> (|r| - j) % 4 == 0 {
        if j < |Group(head)| { assert r[j] == Group(head)[j]; }
      }
    }
  }

  // ---------------------------------------------------------------------------
  // format_amount
  // ---------------------------------------------------------------------------

  function Zeros(n: nat): (s: string)
    ensures |s| == n && forall k :: 0 <= k < n ==> s[k] == '0'
  {
    seq(n, _ => '0')
  }

  /** `{:0width$}`. */
  function Padded(n: nat, width: nat): (s: string)
    ensures AllDigits(s)
  {
    var digits := Digits(n);
    if |digits| < width then Zeros(width - |digits|) + digits else digits
  }

  /** Dropping trailing zeros. */
  function Trimmed(s: string): (r: string)
    ensures |r| <= |s| && (AllDigits(s) ==> AllDigits(r))
  {
    if s != "" && s[|s| - 1] == '0' then Trimmed(s[..|s| - 1]) else s
  }

  function Quotient(n: nat, p: nat): nat
    requires p > 0
  {
    n / p
  }

  function Remainder(n: nat, p: nat): (r: nat)
    requires p > 0
    ensures r < p && Quotient(n, p) * p + r == n
  {
    n % p
  }

  /** The text of a raw amount: scaled when 10^decimals fits in a u64, otherwise as it is. */
  function AmountString(raw: u64, decimals: u8): string {
    if decimals == 0 || Pow10(decimals) > MAX_U64 then Commas(raw) else
      var frac := Trimmed(Padded(Remainder(raw, Pow10(decimals)), decimals));
      Commas(Quotient(raw, Pow10(decimals))) + (if frac == "" then "" else "." + frac)
  }

  /** `10u64.checked_pow(decimals)`. */
  method CheckedPow10(decimals: u8) returns (p: Option<u64>)
    ensures p == if Pow10(decimals) <= MAX_U64 then Some(Pow10(decimals)) else None
  {
    var acc: nat := 1;
    for i := 0 to decimals
      invariant acc == Pow10(i) && acc <= MAX_U64
    {
      PowGrows(i + 1, decimals);
      if 10 * acc > MAX_U64 {
        return None;
      }
      acc := 10 * acc;
    }
    return Some(acc);
  }

  lemma {:induction false} PowGrows(m: nat, n: nat)
    requires m <= n
    ensures Pow10(m) <= Pow10(n)
    decreases n
  {
    if m < n {
      PowGrows(m, n - 1);
    }
  }

  /** `format_amount`. */
  method FormatAmount(raw: u64, decimals: u8) returns (text: string)
    ensures text == AmountString(raw, decimals)
  {
    if decimals == 0 {
      text := PrintCommas(raw);
      return;
    }
    var divisor := CheckedPow10(decimals);
    if divisor == None {
      text := PrintCommas(raw);
      return;
    }
    var whole, frac := Quotient(raw, divisor.value), Remainder(raw, divisor.value);
    var fracStr := Padded(frac, decimals);
    while fracStr != "" && fracStr[|fracStr| - 1] == '0'
      invariant Trimmed(fracStr) == Trimmed(Padded(frac, decimals))
      decreases |fracStr|
    {
      fracStr := fracStr[..|fracStr| - 1];
    }
    text := PrintCommas(whole);
    if fracStr != "" {
      text := text + "." + fracStr;
    }
  }

  // ---------------------------------------------------------------------------
  // Reading amounts back
  // ---------------------------------------------------------------------------

  /** The first position of a character, or the length. */
  function IndexOf(c: char, s: string): (i: nat)
    ensures i <= |s| && c !in s[..i]
    ensures i < |s| ==> s[i] == c
  {
    if s == "" || s[0] == c then 0 else
      var rest := IndexOf(c, s[1..]);
      assert s[..rest + 1] == [s[0]] + s[1..][..rest];
      rest + 1
  }

  /** Reading a decimal, with commas, as a whole number of 10^-decimals. */
  function ReadScaled(text: string, decimals: nat): Option<nat> {
    var plain := Strip(text);
    var dot := IndexOf('.', plain);
    var whole, frac := plain[..dot], if dot < |plain| then plain[dot + 1..] else "";
    if AllDigits(whole) && AllDigits(frac) && |frac| <= decimals
    then Some(ToNat(whole) * Pow10(decimals) + ToNat(frac) * Pow10(decimals - |frac|))
    else None
  }

  lemma {:induction false} LeadingZeros(n: nat, s: string)
    requires AllDigits(s)
    ensures AllDigits(Zeros(n) + s) && ToNat(Zeros(n) + s) == ToNat(s)
    decreases n + |s|
  {
    var t := Zeros(n) + s;
    if s != "" {
      assert t[..|t| - 1] == Zeros(n) + s[..|s| - 1];
      LeadingZeros(n, s[..|s| - 1]);
    } else if n > 0 {
      assert t[..n - 1] == Zeros(n - 1) + "";
      LeadingZeros(n - 1, "");
    }
  }

  lemma {:induction false} DigitsWithin(n: nat, width: nat)
    requires n < Pow10(width) && width > 0
    ensures |Digits(n)| <= width
    decreases width
  {
    if n >= 10 {
      DigitsWithin(n / 10, width - 1);
    }
  }

  lemma {:induction false} TrimmedValue(s: string)
    requires AllDigits(s)
    ensures ToNat(s) == ToNat(Trimmed(s)) * Pow10(|s| - |Trimmed(s)|)
    decreases |s|
  {
    if s != "" && s[|s| - 1] == '0' {
      var front := s[..|s| - 1];
      TrimmedValue(front);
      assert Pow10(|s| - |Trimmed(s)|) == 10 * Pow10(|front| - |Trimmed(front)|);
    }
  }

  /** Trimming takes off zeros only, and all of them. */
  lemma {:induction false} TrimmedExactly(s: string)
    ensures s == Trimmed(s) + Zeros(|s| - |Trimmed(s)|)
    ensures Trimmed(s) == "" || Trimmed(s)[|Trimmed(s)| - 1] != '0'
    decreases |s|
  {
    if s != "" && s[|s| - 1] == '0' {
      TrimmedExactly(s[..|s| - 1]);
    }
  }

  lemma {:induction false} FractionValue(frac: nat, decimals: nat)
    requires decimals > 0 && frac < Pow10(decimals)
    ensures var t := Trimmed(Padded(frac, decimals));
            |t| <= decimals && ToNat(t) * Pow10(decimals - |t|) == frac
  {
    DigitsWithin(frac, decimals);
    LeadingZeros(decimals - |Digits(frac)|, Digits(frac));
    ReadingDigits(frac);
    assert Padded(frac, decimals) == Zeros(decimals - |Digits(frac)|) + Digits(frac);
    TrimmedValue(Padded(frac, decimals));
  }

  lemma {:induction false} StripCommas(n: nat)
    ensures Strip(Commas(n)) == Digits(n)
  {
    StripGroup(Digits(n));
  }

  lemma {:induction false} SplitsAtDot(whole: string, frac: string)
    requires AllDigits(whole)
    ensures IndexOf('.', whole + "." + frac) == |whole| && IndexOf('.', whole) == |whole|
    decreases |whole|
  {
    if whole != "" {
      assert (whole + "." + frac)[1..] == whole[1..] + "." + frac;
      SplitsAtDot(whole[1..], frac);
    }
  }

  lemma {:induction false} ReadsWhole(n: nat, decimals: nat)
    ensures ReadScaled(Commas(n), decimals) == Some(n * Pow10(decimals))
  {
    hide Strip, Commas, Digits, IndexOf, Pow10;
    StripCommas(n);
    ReadingDigits(n);
    SplitsAtDot(Digits(n), "");
    assert Digits(n)[..|Digits(n)|] == Digits(n);
  }

  lemma {:induction false} ReadsFraction(whole: nat, frac: string, decimals: nat)
    requires AllDigits(frac) && |frac| <= decimals
    ensures ReadScaled(Commas(whole) + "." + frac, decimals)
            == Some(whole * Pow10(decimals) + ToNat(frac) * Pow10(decimals - |frac|))
  {
    hide Strip, Commas, Digits, IndexOf, Pow10;
    StripCommas(whole);
    ReadingDigits(whole);
    StripKeeps("." + frac);
    StripAppend(Commas(whole), "." + frac);
    assert Commas(whole) + "." + frac == Commas(whole) + ("." + frac);
    var plain := Digits(whole) + "." + frac;
    assert plain == Digits(whole) + ("." + frac);
    SplitsAtDot(Digits(whole), frac);
    assert plain[..|Digits(whole)|] == Digits(whole) && plain[|Digits(whole)| + 1..] == frac;
  }

  lemma OnlyZeroScalesToItself(n: nat, p: nat)
    requires p > 1
    ensures n * p == n <==> n == 0
  {
    assert n * p == n + n * (p - 1);
  }

  lemma {:induction false} ScaledAmountReadsBack(raw: u64, decimals: u8)
    requires 0 < decimals && Pow10(decimals) <= MAX_U64
    ensures ReadScaled(AmountString(raw, decimals), decimals) == Some(raw as nat)
  {
    hide ReadScaled, Commas, Trimmed, Padded, Quotient, Remainder, Pow10;
    var whole, frac := Quotient(raw, Pow10(decimals)), Remainder(raw, Pow10(decimals));
    FractionValue(frac, decimals);
    var t := Trimmed(Padded(frac, decimals));
    if t == "" {
      ReadsWhole(whole, decimals);
      assert AmountString(raw, decimals) == Commas(whole);
    } else {
      ReadsFraction(whole, t, decimals);
      assert AmountString(raw, decimals) == Commas(whole) + "." + t;
    }
  }

  /** Reading a printed amount back gives the raw amount, for every amount, exactly while 10^decimals fits in a u64
      (and for zero anyway). */
  lemma {:induction false} AmountReadsBack(raw: u64, decimals: u8)
    ensures ReadScaled(AmountString(raw, decimals), decimals) == Some(raw as nat)
            <==> Pow10(decimals) <= MAX_U64 || raw == 0
  {
    if 0 < decimals && Pow10(decimals) <= MAX_U64 {
      ScaledAmountReadsBack(raw, decimals);
    } else {
      ReadsWhole(raw, decimals);
      if decimals > 0 {
        OnlyZeroScalesToItself(raw, Pow10(decimals));
      }
    }
  }

  /** The printed text of an amount whose decimals are scaled: the whole part with commas, and unless the rest is
      zero a point and digits for it, at most as many as the decimals, of which the last is not a zero. */
  lemma {:induction false} ScaledText(raw: u64, decimals: u8) returns (frac: string)
    requires 0 < decimals && Pow10(decimals) <= MAX_U64
    ensures var whole, rest := raw / Pow10(decimals), raw % Pow10(decimals);
            if rest == 0 then AmountString(raw, decimals) == Commas(whole) else
              AmountString(raw, decimals) == Commas(whole) + "." + frac
              && AllDigits(frac) && 0 < |frac| <= decimals && frac[|frac| - 1] != '0'
              && ToNat(frac) * Pow10(decimals - |frac|) == rest
  {
    hide Commas, Padded, Pow10, Trimmed;
    var rest := Remainder(raw, Pow10(decimals));
    FractionValue(rest, decimals);
    TrimmedExactly(Padded(rest, decimals));
    frac := Trimmed(Padded(rest, decimals));
    if frac != "" {
      LastDigitCounts(frac);
    }
  }

  /** A text whose last digit is not a zero is not a zero. */
  lemma LastDigitCounts(s: string)
    requires AllDigits(s) && s != "" && s[|s| - 1] != '0'
    ensures ToNat(s) > 0
  {
  }

  /** Beyond 19 decimals an amount prints as if it had none. */
  lemma {:induction false} UnscaledText(raw: u64, decimals: u8)
    requires decimals == 0 || decimals > 19
    ensures AmountString(raw, decimals) == Commas(raw)
    ensures ReadScaled(AmountString(raw, decimals), 0) == Some(raw as nat)
  {
    ScaledUpTo19(decimals);
    ReadsWhole(raw, 0);
  }

  /** Exactly the decimals up to 19 are scaled. */
  lemma ScaledUpTo19(decimals: u8)
    ensures Pow10(decimals) <= MAX_U64 <==> decimals <= 19
  {
    assert Pow10(5) == 100_000;
    assert Pow10(10) == 10_000_000_000;
    assert Pow10(15) == 1_000_000_000_000_000;
    assert Pow10(19) == 10_000_000_000_000_000_000;
    assert Pow10(20) == 100_000_000_000_000_000_000;
    if decimals <= 19 {
      PowGrows(decimals, 19);
    } else {
      PowGrows(20, decimals);
    }
  }

  /** No two raw amounts print alike at the same decimals. */
  lemma {:induction false} AmountsPrintApart(raw: u64, raw': u64, decimals: u8)
    ensures AmountString(raw, decimals) == AmountString(raw', decimals) <==> raw == raw'
  {
    AmountReadsBack(raw, decimals);
    AmountReadsBack(raw', decimals);
    if Pow10(decimals) > MAX_U64 {
      StripCommas(raw);
      StripCommas(raw');
      ReadingDigits(raw);
      ReadingDigits(raw');
    }
  }

  // ---------------------------------------------------------------------------
  // Paths
  // ---------------------------------------------------------------------------

  /** `Display for Path`: the indices with dots between them. */
  function PathString(path: seq<u8>): string {
    if path == [] then ""
    else if |path| == 1 then Digits(path[0])
    else PathString(path[..|path| - 1]) + "." + Digits(path[|path| - 1])
  }

  method DisplayPath(path: seq<u8>) returns (text: string)
    ensures text == PathString(path)
  {
    text := "";
    if path != [] {
      text := Digits(path[0]);
      assert path[..1] == [path[0]];
      for i := 1 to |path|
        invariant text == PathString(path[..i])
      {
        assert path[..i + 1][..i] == path[..i];
        text := text + "." + Digits(path[i]);
      }
      assert path[..|path|] == path;
    }
  }

  /** The pieces of a text between its dots. */
  function Pieces(s: string): (r: seq<string>)
    ensures r != []
  {
    if s == "" then [""] else
      var front, c := Pieces(s[..|s| - 1]), s[|s| - 1];
      if c == '.' then front + [""] else front[|front| - 1 := front[|front| - 1] + [c]]
  }

  lemma {:induction false} PiecesOfDigits(s: string)
    requires AllDigits(s)
    ensures Pieces(s) == [s]
    decreases |s|
  {
    if s != "" {
      PiecesOfDigits(s[..|s| - 1]);
      assert s == s[..|s| - 1] + [s[|s| - 1]];
    }
  }

  lemma {:induction false} LastPiece(head: string, last: string)
    requires AllDigits(last)
    ensures Pieces(head + "." + last) == Pieces(head) + [last]
    decreases |last|
  {
    var s := head + "." + last;
    if last == "" {
      assert s[..|s| - 1] == head;
    } else {
      assert s[..|s| - 1] == head + "." + last[..|last| - 1];
      LastPiece(head, last[..|last| - 1]);
      assert last == last[..|last| - 1] + [last[|last| - 1]];
    }
  }

  /** Between the dots of a printed path are the decimal texts of its indices, in order; the empty path is the empty
      text. */
  lemma {:induction false} PathPieces(path: seq<u8>)
    ensures PathString(path) == "" <==> path == []
    ensures path != [] ==>
              Pieces(PathString(path)) == seq(|path|, i requires 0 <= i < |path| => Digits(path[i]))
    decreases |path|
  {
    hide Digits, Pieces;
    if |path| == 1 {
      PiecesOfDigits(Digits(path[0]));
    } else if path != [] {
      var front := path[..|path| - 1];
      PathPieces(front);
      LastPiece(PathString(front), Digits(path[|path| - 1]));
    }
  }

  /** Different paths print differently, so a printed path names one instruction. */
  lemma {:induction false} PathsPrintApart(path: seq<u8>, path': seq<u8>)
    ensures PathString(path) == PathString(path') <==> path == path'
  {
    hide PathString, Digits;
    PathPieces(path);
    PathPieces(path');
    if PathString(path) == PathString(path') && path != [] {
      var pieces := Pieces(PathString(path));
      assert |path| == |pieces| == |path'|;
      forall i | 0 <= i < |path| ensures path[i] == path'[i] {
        assert Digits(path[i]) == pieces[i] == Digits(path'[i]);
        ReadingDigits(path[i]);
        ReadingDigits(path'[i]);
      }
    }
  }
}
