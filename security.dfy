/** The frontend's checksum token scheme (frontend/lib/security.ts). Each
    char stands for one UTF-16 code unit; `Math.random()` draws are
    parameters in [0, 1). */
module Security {
  import opened Base
  import Auth

  /** The i-th character of the checksum alphabet "0-9A-Z". */
  function AlphabetChar(i: int): (digit: char)
    requires 0 <= i < 36
    ensures i < 10 ==> digit as int == 48 + i
    ensures i >= 10 ==> digit as int == 55 + i
  {
    if i < 10 then (48 + i) as char else (55 + i) as char
  }

  const ChecksumAlphabet := "0123456789ABCDEFGHIJKLMNOPQRSTUVWXYZ"
  const Words: seq<string> := ["eagle", "hawk", "falcon", "osprey", "swift", "kite"]

  /** The sum of the code units of `s`, accumulated left to right. */
  function CodeSum(s: string): nat {
    if s == [] then 0 else CodeSum(s[..|s| - 1]) + s[|s| - 1] as int
  }

  /** The alphabet is the ten digits followed by the 26 capital letters. */
  lemma AlphabetIsDigitsThenLetters()
    ensures forall i :: 0 <= i < 36 ==> ChecksumAlphabet[i] == AlphabetChar(i)
  {
    assert ChecksumAlphabet == seq(36, i requires 0 <= i < 36 => AlphabetChar(i));
  }

  /** `computeChecksum`: the character of "0-9A-Z" at the code sum mod 36. */
  function Checksum(s: string): (c: char)
    ensures '0' <= c <= '9' || 'A' <= c <= 'Z'
  {
    AlphabetChar(CodeSum(s) % 36)
  }

  /** The checksum is the character of the alphabet literal at the sum. */
  lemma ChecksumUsesAlphabet(s: string)
    ensures Checksum(s) == ChecksumAlphabet[CodeSum(s) % 36]
  {
    AlphabetIsDigitsThenLetters();
  }

  /** Distinct residues give distinct checksum characters. */
  lemma AlphabetDistinct(i: int, j: int)
    requires 0 <= i < 36 && 0 <= j < 36 && i != j
    ensures AlphabetChar(i) != AlphabetChar(j)
  {
  }

  /** Appending a code unit adds its code to the sum. */
  lemma CodeSumAppend(s: string, c: char)
    ensures CodeSum(s + [c]) == CodeSum(s) + c as int
  {
    assert (s + [c])[..|s|] == s;
  }

  /** The loop of `computeChecksum`. */
  method ComputeChecksum(str: string) returns (c: char)
    ensures c == Checksum(str)
  {
    var sum: nat := 0;
    for i := 0 to |str|
      invariant sum == CodeSum(str[..i])
    {
      assert str[..i + 1][..i] == str[..i];
      sum := sum + str[i] as int;
    }
    assert str[..|str|] == str;
    c := ChecksumAlphabet[sum % 36];
    ChecksumUsesAlphabet(str);
  }

  /** The token with one trailing "-A" or "-B" removed. */
  function Clean(token: string): (clean: string)
    ensures EndsWith(token, "-A") || EndsWith(token, "-B") ==> clean + token[|token| - 2..] == token && |clean| == |token| - 2
    ensures !(EndsWith(token, "-A") || EndsWith(token, "-B")) ==> clean == token
  {
    if EndsWith(token, "-A") || EndsWith(token, "-B") then token[..|token| - 2] else token
  }

  /** `validateChecksum`: true for tokens shorter than five; otherwise, after
      stripping one reality suffix, the last character must be the checksum
      of everything before it. */
  function ValidateChecksum(token: string): (ok: bool)
    ensures |token| < 5 ==> ok
    ensures |token| >= 5 ==>
              var clean := Clean(token);
              |clean| >= 3 && (ok <==> Checksum(clean[..|clean| - 1]) == clean[|clean| - 1])
  {
    if |token| < 5 then true
    else
      var clean := Clean(token);
      Checksum(clean[..|clean| - 1]) == clean[|clean| - 1]
  }

  /** A body followed by its own checksum validates, unless that appends
      "-A" or "-B" (the last body byte is '-' and the checksum is 'A' or
      'B'), which validation would strip. */
  lemma ChecksummedBodyValidates(body: string)
    requires |body| >= 4
    requires !(body[|body| - 1] == '-' && Checksum(body) in {'A', 'B'})
    ensures ValidateChecksum(body + [Checksum(body)])
  {
    var t := body + [Checksum(body)];
    assert t[|t| - 2..] == [body[|body| - 1], Checksum(body)];
    assert Clean(t) == t;
    assert t[..|t| - 1] == body;
  }

  /** Cleaning a token with one reality suffix appended removes exactly
      that suffix. */
  lemma CleanStripsAppendedSuffix(token: string, suffix: string)
    requires suffix == "-A" || suffix == "-B"
    ensures Clean(token + suffix) == token
  {
    var t := token + suffix;
    assert t[|t| - 2..] == suffix;
    assert t[..|t| - 2] == token;
  }

  /** Exactly one reality suffix is stripped: a token of five or more bytes
      that has none validates exactly as it does with one appended. */
  lemma SuffixDoesNotMatter(token: string, suffix: string)
    requires |token| >= 5 && !EndsWith(token, "-A") && !EndsWith(token, "-B")
    requires suffix == "-A" || suffix == "-B"
    ensures ValidateChecksum(token + suffix) == ValidateChecksum(token)
  {
    CleanStripsAppendedSuffix(token, suffix);
    var core := token[..|token| - 1];
    var last := token[|token| - 1];
    assert ValidateChecksum(token + suffix) == (Checksum(core) == last);
    assert ValidateChecksum(token) == (Checksum(core) == last);
  }

  /** The decimal digits of a natural number. */
  function Decimal(n: nat): (s: string)
    ensures |s| >= 1
    ensures forall i :: 0 <= i < |s| ==> '0' <= s[i] <= '9'
  {
    if n < 10 then [('0' as int + n) as char]
    else Decimal(n / 10) + [('0' as int + n % 10) as char]
  }

  /** The number a string of decimal digits denotes. */
  function DigitsValue(s: string): nat
    requires forall i :: 0 <= i < |s| ==> '0' <= s[i] <= '9'
  {
    if s == [] then 0 else DigitsValue(s[..|s| - 1]) * 10 + (s[|s| - 1] as int - '0' as int)
  }

  /** `String(n)` denotes `n`. */
  lemma {:induction false} DecimalValue(n: nat)
    ensures DigitsValue(Decimal(n)) == n
  {
    if n >= 10 {
      var d := Decimal(n);
      assert d[..|d| - 1] == Decimal(n / 10);
      DecimalValue(n / 10);
    }
  }

  lemma {:induction false} DecimalLength(n: nat)
    requires 100 <= n <= 999
    ensures |Decimal(n)| == 3
  {
    assert 10 <= n / 10 < 100;
    assert 1 <= (n / 10) / 10 < 10;
    assert |Decimal((n / 10) / 10)| == 1;
    assert |Decimal(n / 10)| == 2;
  }

  /** `Math.floor(Math.random() * 6)`: an index into the word list. */
  function WordIndex(r: real): (i: int)
    requires 0.0 <= r < 1.0
    ensures 0 <= i < |Words|
  {
    (r * 6.0).Floor
  }

  /** `Math.floor(100 + Math.random() * 900)`: a three-digit number. */
  function TokenNumber(r: real): (n: int)
    requires 0.0 <= r < 1.0
    ensures 100 <= n <= 999
  {
    (100.0 + r * 900.0).Floor
  }

  /** The part of a generated token the checksum is computed over. */
  function TokenBase(r1: real, r2: real): string
    requires 0.0 <= r1 < 1.0 && 0.0 <= r2 < 1.0
  {
    "RX-" + Words[WordIndex(r1)] + Decimal(TokenNumber(r2))
  }

  /** `generateToken`: "RX-", a word, a three-digit number, '-', and the
      checksum of everything before the '-'. */
  function GenerateToken(r1: real, r2: real): (t: string)
    requires 0.0 <= r1 < 1.0 && 0.0 <= r2 < 1.0
    ensures IsPrefix("RX-", t)
    ensures |t| == |TokenBase(r1, r2)| + 2 && t[|t| - 2] == '-'
    ensures t[..|t| - 2] == TokenBase(r1, r2) && t[|t| - 1] == Checksum(TokenBase(r1, r2))
  {
    TokenBase(r1, r2) + "-" + [Checksum(TokenBase(r1, r2))]
  }

  /** A generated token is 4 to 6 letters between "RX-" and three digits
      denoting the drawn number, and the backend accepts it as a receiver
      token. */
  lemma GeneratedTokenShape(r1: real, r2: real)
    requires 0.0 <= r1 < 1.0 && 0.0 <= r2 < 1.0
    ensures var t := GenerateToken(r1, r2);
            && 12 <= |t| <= 14
            && Auth.ValidateReceiverToken(t)
            && (forall i :: |t| - 5 <= i < |t| - 2 ==> '0' <= t[i] <= '9')
            && DigitsValue(t[|t| - 5..|t| - 2]) == TokenNumber(r2)
  {
    var t := GenerateToken(r1, r2);
    var w := Words[WordIndex(r1)];
    var d := Decimal(TokenNumber(r2));
    DecimalLength(TokenNumber(r2));
    assert 4 <= |w| <= 6;
    assert t == "RX-" + w + d + "-" + [Checksum(TokenBase(r1, r2))];
    forall i | |t| - 5 <= i < |t| - 2
      ensures '0' <= t[i] <= '9'
    {
      assert t[i] == d[i - (|t| - 5)];
    }
    assert t[..3] == "RX-";
    assert t[|t| - 5..|t| - 2] == d;
    DecimalValue(TokenNumber(r2));
  }

  /** A checksum appended after a '-' is checked against the wrong sum:
      validation includes the '-' (code 45) in the sum, and 45 is not a
      multiple of 36. */
  lemma DashedChecksumFails(b: string)
    requires |b| >= 3 && Checksum(b) !in {'A', 'B'}
    ensures !ValidateChecksum(b + "-" + [Checksum(b)])
  {
    var t := b + "-" + [Checksum(b)];
    assert t[|t| - 2..] == ['-', Checksum(b)];
    assert Clean(t) == t;
    var core := t[..|t| - 1];
    assert core == b + ['-'];
    CodeSumAppend(b, '-');
    AlphabetDistinct((CodeSum(b) + 45) % 36, CodeSum(b) % 36);
  }

  /** As written, a generated token does not pass `validateChecksum` unless
      its checksum is 'A' or 'B': then validation strips "-A"/"-B" instead
      and checks the last digit against the checksum of the rest. */
  lemma GeneratedTokenValidation(r1: real, r2: real)
    requires 0.0 <= r1 < 1.0 && 0.0 <= r2 < 1.0
    ensures var b := TokenBase(r1, r2);
            Checksum(b) !in {'A', 'B'} ==> !ValidateChecksum(GenerateToken(r1, r2))
    ensures var b := TokenBase(r1, r2);
            Checksum(b) in {'A', 'B'} ==>
              (ValidateChecksum(GenerateToken(r1, r2)) <==> Checksum(b[..|b| - 1]) == b[|b| - 1])
  {
    var b := TokenBase(r1, r2);
    var t := GenerateToken(r1, r2);
    assert |b| >= 3;
    assert t == b + "-" + [Checksum(b)];
    if Checksum(b) !in {'A', 'B'} {
      DashedChecksumFails(b);
    } else {
      assert t[|t| - 2..] == ['-', Checksum(b)];
      assert Clean(t) == b;
    }
  }
}
