/**
 * Hostel-name normalisation (controllers/hostelController.js, lines 3-92):
 * Roman block numbers, the KP and QC name forms, the dispatch on the name's
 * prefix and the hostel type a name implies. A thrown error is a `Failure`.
 */
module HostelNames {
  import opened Common
  import opened Text

  /** The error each `throw` raises. */
  datatype NameError = BadKPFormat | KPNotNormalised | BadQCFormat | Unsupported

  // ---------------------------------------------------------------------
  // Roman numerals
  // ---------------------------------------------------------------------

  /** The table of `romanToInt`: I, V, X and L only. */
  function RomanDigit(c: char): Option<nat> {
    if c == 'I' then Some(1)
    else if c == 'V' then Some(5)
    else if c == 'X' then Some(10)
    else if c == 'L' then Some(50)
    else None
  }

  predicate IsRoman(s: string) {
    forall i :: 0 <= i < |s| ==> RomanDigit(s[i]).Some?
  }

  function DigitOf(s: string, i: nat): int
    requires IsRoman(s) && i < |s|
  {
    RomanDigit(s[i]).value
  }

  /** Positional reading: each symbol counts negatively when the symbol to its right is strictly larger. */
  function RomanSum(s: string): int
    requires IsRoman(s)
  {
    if s == [] then 0
    else
      assert IsRoman(s[1..]) by {
        forall i | 0 <= i < |s| - 1 ensures RomanDigit(s[1..][i]).Some? {
          assert s[1..][i] == s[i + 1];
        }
      }
      (if |s| > 1 && DigitOf(s, 0) < DigitOf(s, 1) then -DigitOf(s, 0) else DigitOf(s, 0)) + RomanSum(s[1..])
  }

  /** `romanToInt` as a value: NaN when some character is not I, V, X or L; 0 for the empty string. */
  function RomanValue(s: string): (r: Num)
    ensures r.NaN? <==> exists i :: 0 <= i < |s| && RomanDigit(s[i]).None?
    ensures s == [] ==> r == Int(0)
  {
    if IsRoman(s) then Int(RomanSum(s)) else NaN
  }

  /** Lines 74-85: right to left, a symbol smaller than the previous (right-hand) one is subtracted. */
  method RomanToInt(roman: string) returns (r: Num)
    ensures r == RomanValue(roman)
  {
    var total := 0;
    var prev: int := 0;
    var i := |roman|;
    while i > 0
      invariant 0 <= i <= |roman|
      invariant IsRoman(roman[i..])
      invariant total == RomanSum(roman[i..])
      invariant i < |roman| ==> RomanDigit(roman[i]).Some? && prev == RomanDigit(roman[i]).value
      invariant i == |roman| ==> prev == 0
    {
      var curr := RomanDigit(roman[i - 1]);
      if curr.None? {
        return NaN;
      }
      var v: int := curr.value;
      var tail := roman[i - 1..];
      assert tail[1..] == roman[i..];
      assert IsRoman(tail) by {
        forall k | 0 <= k < |tail| ensures RomanDigit(tail[k]).Some? {
          if k > 0 {
            assert tail[k] == roman[i..][k - 1];
          }
        }
      }
      if i < |roman| {
        assert roman[i..][0] == roman[i];
      }
      total := total + if v < prev then -v else v;
      prev := v;
      i := i - 1;
    }
    assert roman[0..] == roman;
    return Int(total);
  }

  /** Of two different Roman digits, the larger is at least twice the smaller. */
  lemma RomanDigitsSpread(a: char, b: char)
    requires RomanDigit(a).Some? && RomanDigit(b).Some? && RomanDigit(a).value < RomanDigit(b).value
    ensures RomanDigit(b).value >= 2 * RomanDigit(a).value
  {
  }

  /** A non-empty numeral is worth at least its first symbol, so never less than 1. */
  lemma {:induction false} RomanAtLeastFirst(s: string)
    requires IsRoman(s) && s != []
    ensures RomanSum(s) >= DigitOf(s, 0) >= 1
  {
    var rest := s[1..];
    if |s| > 1 {
      assert IsRoman(rest) by {
        forall i | 0 <= i < |rest| ensures RomanDigit(rest[i]).Some? {
          assert rest[i] == s[i + 1];
        }
      }
      RomanAtLeastFirst(rest);
      assert DigitOf(rest, 0) == DigitOf(s, 1);
      if DigitOf(s, 0) < DigitOf(s, 1) {
        RomanDigitsSpread(s[0], s[1]);
      }
    }
  }

  /** The plain sum of the symbols. */
  function DigitTotal(s: string): nat
    requires IsRoman(s)
  {
    if s == [] then 0
    else
      assert IsRoman(s[1..]) by {
        forall i | 0 <= i < |s| - 1 ensures RomanDigit(s[1..][i]).Some? {
          assert s[1..][i] == s[i + 1];
        }
      }
      DigitOf(s, 0) + DigitTotal(s[1..])
  }

  /** Symbols written largest first (additive notation, as in "XVIII") are simply added up. */
  lemma {:induction false} RomanAdditive(s: string)
    requires IsRoman(s)
    requires forall i :: 0 <= i < |s| - 1 ==> DigitOf(s, i) >= DigitOf(s, i + 1)
    ensures RomanSum(s) == DigitTotal(s)
  {
    if s != [] {
      var rest := s[1..];
      assert IsRoman(rest) by {
        forall i | 0 <= i < |rest| ensures RomanDigit(rest[i]).Some? {
          assert rest[i] == s[i + 1];
        }
      }
      forall i | 0 <= i < |rest| - 1 ensures DigitOf(rest, i) >= DigitOf(rest, i + 1) {
        assert rest[i] == s[i + 1] && rest[i + 1] == s[i + 2];
        assert DigitOf(s, i + 1) >= DigitOf(s, i + 2);
      }
      RomanAdditive(rest);
    }
  }

  // ---------------------------------------------------------------------
  // KP names
  // ---------------------------------------------------------------------

  /** `s.slice(0, -i)`: all but the last `i` characters (empty when there are fewer). */
  function DropLast(s: string, i: nat): string {
    s[..if |s| >= i then |s| - i else 0]
  }

  /** `s.slice(-i)`: the last `i` characters (all of them when there are fewer). */
  function TakeLast(s: string, i: nat): string {
    s[if |s| >= i then |s| - i else 0..]
  }

  lemma DropTakeLast(s: string, i: nat)
    ensures DropLast(s, i) + TakeLast(s, i) == s
  {
  }

  /** `${prefix}-${number}${suffix}`. */
  function KPName(prefix: string, n: int, suffix: string): string {
    prefix + "-" + IntToString(n) + suffix
  }

  /** Lines 18-25: with one, then two, trailing characters taken as the suffix. */
  function KPRetry(prefix: string, blockPart: string, i: nat): Result<string, NameError>
    requires 1 <= i <= 3
    decreases 3 - i
  {
    if i == 3 then Failure(KPNotNormalised)
    else
      match RomanValue(DropLast(blockPart, i))
      case Int(n) => Success(KPName(prefix, n, TakeLast(blockPart, i)))
      case NaN => KPRetry(prefix, blockPart, i + 1)
  }

  /** The pieces `normalizeKPHostelName` reads: the '-' parts, the upper-cased prefix, the block part. */
  function KPParts(raw: string): seq<string> {
    Split(Trim(raw), '-')
  }

  function KPBlock(parts: seq<string>): string
    requires |parts| >= 2
  {
    Trim(CollapseSpaces(Upper(parts[1])))
  }

  /** The suffix of the first attempt: the second word of the block part, or the third '-' part of a five-part name. */
  function KPSuffix(parts: seq<string>, tokens: seq<string>): string {
    if |tokens| > 1 && tokens[1] != "" then tokens[1]
    else if |parts| == 5 then parts[2]
    else ""
  }

  /** `normalizeKPHostelName`. */
  function NormalizeKP(raw: string): Result<string, NameError> {
    var parts := KPParts(raw);
    if |parts| < 2 then Failure(BadKPFormat)
    else
      var prefix := Upper(parts[0]);
      var blockPart := KPBlock(parts);
      var tokens := Split(blockPart, ' ');
      match RomanValue(tokens[0])
      case Int(n) => Success(KPName(prefix, n, KPSuffix(parts, tokens)))
      case NaN => KPRetry(prefix, blockPart, 1)
  }

  /** Lines 18-27: read all but the last one, then two, characters as the numeral, the rest as the suffix. */
  method RetryWithSuffix(prefix: string, blockPart: string) returns (r: Result<string, NameError>)
    ensures r == KPRetry(prefix, blockPart, 1)
  {
    for i := 1 to 3
      invariant KPRetry(prefix, blockPart, 1) == KPRetry(prefix, blockPart, i)
    {
      var roman := DropLast(blockPart, i);
      var suffix := TakeLast(blockPart, i);
      var number := RomanToInt(roman);
      if number.Int? {
        return Success(KPName(prefix, number.v, suffix));
      }
    }
    return Failure(KPNotNormalised);
  }

  /** Lines 3-28: split, read the first word as a numeral, and on failure retry with a one- or two-character suffix. */
  method NormalizeKPHostelName(raw: string) returns (r: Result<string, NameError>)
    ensures r == NormalizeKP(raw)
  {
    var parts := KPParts(raw);
    if |parts| < 2 {
      return Failure(BadKPFormat);
    }
    var prefix := Upper(parts[0]);
    var blockPart := KPBlock(parts);
    var tokens := Split(blockPart, ' ');
    var roman := tokens[0];
    var suffix := if |tokens| > 1 then tokens[1] else "";
    if suffix == "" && |parts| == 5 {
      suffix := parts[2];
    }
    assert suffix == KPSuffix(parts, tokens);
    var number := RomanToInt(roman);
    if number.Int? {
      return Success(KPName(prefix, number.v, suffix));
    }
    r := RetryWithSuffix(prefix, blockPart);
  }

  /** The only format error is a name without '-'. */
  lemma NormalizeKPFormat(raw: string)
    ensures NormalizeKP(raw) == Failure(BadKPFormat) <==> '-' !in Trim(raw)
  {
    SplitFindsSeparator(Trim(raw), '-');
    var parts := KPParts(raw);
    if |parts| >= 2 {
      var blockPart := KPBlock(parts);
      assert NormalizeKP(raw) != Failure(BadKPFormat) by {
        if RomanValue(Split(blockPart, ' ')[0]).NaN? {
          KPRetryFails(Upper(parts[0]), blockPart, 1);
        }
      }
    }
  }

  /** The retries fail only with `KPNotNormalised`, and succeed with the prefix, '-', decimal digits, then the suffix. */
  lemma {:induction false} KPRetryFails(prefix: string, blockPart: string, i: nat)
    requires 1 <= i <= 3
    ensures var r := KPRetry(prefix, blockPart, i);
      && (r.Failure? ==> r.error == KPNotNormalised)
      && (r.Success? ==> exists n: nat, k :: 1 <= k <= 2 && r.value == prefix + "-" + NatToString(n) + TakeLast(blockPart, k))
    decreases 3 - i
  {
    if i < 3 {
      match RomanValue(DropLast(blockPart, i))
      case Int(n) =>
        if DropLast(blockPart, i) != [] {
          RomanAtLeastFirst(DropLast(blockPart, i));
        }
        assert KPRetry(prefix, blockPart, i).value == prefix + "-" + NatToString(n) + TakeLast(blockPart, i);
      case NaN => KPRetryFails(prefix, blockPart, i + 1);
    }
  }

  /**
   * A normalised KP name is the upper-cased text before the first '-', a
   * '-', the block number in decimal (never negative), then a suffix.
   */
  lemma NormalizeKPShape(raw: string)
    requires NormalizeKP(raw).Success?
    ensures var parts := KPParts(raw);
      |parts| >= 2 &&
      exists n: nat, suffix :: NormalizeKP(raw).value == Upper(parts[0]) + "-" + NatToString(n) + suffix
  {
    var parts := KPParts(raw);
    var blockPart := KPBlock(parts);
    var tokens := Split(blockPart, ' ');
    match RomanValue(tokens[0])
    case Int(n) =>
      if tokens[0] != [] {
        RomanAtLeastFirst(tokens[0]);
      }
      assert NormalizeKP(raw).value == Upper(parts[0]) + "-" + NatToString(n) + KPSuffix(parts, tokens);
    case NaN =>
      KPRetryFails(Upper(parts[0]), blockPart, 1);
  }

  /** The '-' parts of a KP name "x-y" whose pieces hold no '-'. */
  lemma KPPartsOfPair(raw: string, x: string, y: string)
    requires Trim(raw) == x + "-" + y && '-' !in x && '-' !in y
    ensures KPParts(raw) == [x, y]
  {
    SplitAtSeparator(x, '-', y);
    SplitWithoutSeparator(y, '-');
  }

  /** A block part that upper-cases to one word is read as that word, and is the only token. */
  lemma KPBlockOfWord(parts: seq<string>)
    requires |parts| >= 2 && NoSpace(Upper(parts[1])) && Unpadded(Upper(parts[1]))
    ensures KPBlock(parts) == Upper(parts[1])
    ensures Split(KPBlock(parts), ' ') == [Upper(parts[1])]
  {
    var w := Upper(parts[1]);
    CollapseNoSpace(w);
    TrimOfUnpadded(w);
    SplitWithoutSeparator(w, ' ');
  }

  /** A numeral is a single upper-case word. */
  lemma RomanIsWord(w: string)
    requires IsRoman(w)
    ensures NoSpace(w) && Unpadded(w) && Upper(w) == w
  {
    forall i | 0 <= i < |w| ensures !IsSpace(w[i]) && UpperChar(w[i]) == w[i] {
      assert RomanDigit(w[i]).Some?;
    }
    assert Upper(w) == w;
  }

  /** A KP name whose block is a Roman numeral (in either case) gets that numeral in decimal: " kp-iv " becomes "KP-4". */
  lemma NormalizeKPOfRoman(raw: string, x: string, y: string)
    requires Trim(raw) == x + "-" + y && '-' !in x && '-' !in y
    requires y != [] && IsRoman(Upper(y))
    ensures NormalizeKP(raw) == Success(Upper(x) + "-" + IntToString(RomanSum(Upper(y))))
  {
    KPPartsOfPair(raw, x, y);
    var parts := KPParts(raw);
    var w := Upper(y);
    RomanIsWord(w);
    KPBlockOfWord(parts);
    assert RomanValue(w) == Int(RomanSum(w));
    assert KPSuffix(parts, [w]) == "";
    assert KPName(Upper(x), RomanSum(w), "") == Upper(x) + "-" + IntToString(RomanSum(w));
  }

  /**
   * A block that is one decimal digit is not a numeral, so it is retried
   * with that digit as the suffix; the empty numeral left reads as 0, so an
   * already normalised "KP-4" becomes "KP-04".
   */
  lemma NormalizeKPOfDigit(raw: string, x: string, c: char)
    requires Trim(raw) == x + "-" + [c] && '-' !in x && IsDigit(c)
    ensures NormalizeKP(raw) == Success(Upper(x) + "-0" + [c])
  {
    KPPartsOfPair(raw, x, [c]);
    var parts := KPParts(raw);
    assert Upper([c]) == [c];
    KPBlockOfWord(parts);
    assert RomanValue([c]) == NaN by {
      assert RomanDigit([c][0]).None?;
    }
    KPRetryOfDigit(Upper(x), c);
  }

  /** A one-character block that is not a numeral is read as the empty numeral (0) and that character. */
  lemma KPRetryOfDigit(prefix: string, c: char)
    ensures KPRetry(prefix, [c], 1) == Success(prefix + "-0" + [c])
  {
    assert DropLast([c], 1) == [];
    assert RomanValue([]) == Int(0);
    assert TakeLast([c], 1) == [c];
    assert KPName(prefix, 0, [c]) == prefix + "-0" + [c] by {
      assert IntToString(0) == "0";
    }
  }

  // ---------------------------------------------------------------------
  // QC names, dispatch and type
  // ---------------------------------------------------------------------

  /** `normalizeQCHostelName`: prefix, '-', and the text up to the next '-' or ',' without white space, upper-cased. */
  function NormalizeQC(raw: string): Result<string, NameError> {
    var parts := Split(raw, '-');
    var prefix := Upper(Trim(parts[0]));
    if |parts| < 2 || parts[1] == "" then Failure(BadQCFormat)
    else Success(prefix + "-" + Upper(RemoveSpaces(Split(parts[1], ',')[0])))
  }

  /** Upper-casing changes only ASCII letters, so white space stays where it was. */
  lemma UpperUnpadded(s: string)
    requires Unpadded(s)
    ensures Unpadded(Upper(s))
  {
    if s != [] {
      assert Upper(s)[0] == UpperChar(s[0]);
      assert Upper(s)[|s| - 1] == UpperChar(s[|s| - 1]);
    }
  }

  lemma UpperNoSpace(s: string)
    requires NoSpace(s)
    ensures NoSpace(Upper(s))
  {
    forall i | 0 <= i < |s| ensures !IsSpace(Upper(s)[i]) {
      assert Upper(s)[i] == UpperChar(s[i]);
    }
  }

  /** A character that is not an upper-case letter appears in `Upper(s)` only where it was in `s`. */
  lemma UpperKeepsAbsent(s: string, c: char)
    requires c !in s && !('A' <= c <= 'Z')
    ensures c !in Upper(s)
  {
    forall i | 0 <= i < |s| ensures Upper(s)[i] != c {
      assert Upper(s)[i] == UpperChar(s[i]);
    }
  }

  /** A prefix as a normal QC name has it: without '-', upper case, trimmed. */
  predicate CleanPrefix(prefix: string) {
    '-' !in prefix && Upper(prefix) == prefix && Unpadded(prefix)
  }

  /** A block as a normal QC name has it: without white space, '-' or ',', upper case. */
  predicate CleanBlock(block: string) {
    NoSpace(block) && '-' !in block && ',' !in block && Upper(block) == block
  }

  /** The prefix of a QC name: trimmed, upper case, without '-'. */
  lemma QCPrefixClean(first: string)
    requires '-' !in first
    ensures CleanPrefix(Upper(Trim(first)))
  {
    var trimmed := Trim(first);
    UpperUnpadded(trimmed);
    Text.UpperIdempotent(trimmed);
    TrimKeepsAbsent(first, '-');
    UpperKeepsAbsent(trimmed, '-');
  }

  /** The block of a QC name: no white space, '-' or ',', and upper case. */
  lemma QCBlockClean(second: string)
    requires '-' !in second
    ensures CleanBlock(Upper(RemoveSpaces(Split(second, ',')[0])))
  {
    var piece := Split(second, ',')[0];
    assert '-' !in piece by {
      JoinSplit(second, ',');
      SplitFirstIsPrefix(second, ',');
    }
    RemovedKeeps(piece);
    UpperNoSpace(RemoveSpaces(piece));
    UpperKeepsAbsent(RemoveSpaces(piece), '-');
    UpperKeepsAbsent(RemoveSpaces(piece), ',');
    Text.UpperIdempotent(RemoveSpaces(piece));
  }

  /**
   * A QC name comes out as the upper-cased, trimmed text before the first
   * '-', a '-', and a block without white space, '-' or ',' that is
   * already upper case.
   */
  lemma NormalizeQCShape(raw: string)
    requires NormalizeQC(raw).Success?
    ensures var name := NormalizeQC(raw).value;
      var prefix := Upper(Trim(Split(raw, '-')[0]));
      var block := name[|prefix| + 1..];
      name == prefix + "-" + block && CleanPrefix(prefix) && CleanBlock(block)
  {
    QCValue(raw);
    var parts := Split(raw, '-');
    QCShapeOfPieces(NormalizeQC(raw).value, parts[0], parts[1]);
  }

  /** The shape of a QC name built from two pieces without '-'. */
  lemma QCShapeOfPieces(name: string, first: string, second: string)
    requires '-' !in first && '-' !in second
    requires name == Upper(Trim(first)) + "-" + Upper(RemoveSpaces(Split(second, ',')[0]))
    ensures var prefix := Upper(Trim(first));
      var block := name[|prefix| + 1..];
      name == prefix + "-" + block && CleanPrefix(prefix) && CleanBlock(block)
  {
    var prefix := Upper(Trim(first));
    var block := Upper(RemoveSpaces(Split(second, ',')[0]));
    AfterDash(prefix, block);
    QCPrefixClean(first);
    QCBlockClean(second);
  }

  lemma QCValue(raw: string)
    requires NormalizeQC(raw).Success?
    ensures var parts := Split(raw, '-');
      |parts| >= 2 &&
      NormalizeQC(raw).value == Upper(Trim(parts[0])) + "-" + Upper(RemoveSpaces(Split(parts[1], ',')[0]))
  {
  }

  lemma AfterDash(prefix: string, block: string)
    ensures (prefix + "-" + block)[|prefix| + 1..] == block
  {
  }

  /** A name already in the normal QC form is its own normal form. */
  lemma NormalizeQCOfNormal(prefix: string, block: string)
    requires CleanPrefix(prefix) && block != [] && CleanBlock(block)
    ensures NormalizeQC(prefix + "-" + block) == Success(prefix + "-" + block)
  {
    var parts := Split(prefix + "-" + block, '-');
    assert parts == [prefix, block] by {
      SplitAtSeparator(prefix, '-', block);
      SplitWithoutSeparator(block, '-');
    }
    assert Upper(Trim(parts[0])) == prefix by {
      TrimOfUnpadded(prefix);
    }
    assert Upper(RemoveSpaces(Split(parts[1], ',')[0])) == block by {
      SplitWithoutSeparator(block, ',');
      RemoveSpacesOfNoSpace(block);
    }
  }

  /** Normalising a QC name twice gives what normalising it once gives, unless its block came out empty. */
  lemma NormalizeQCIdempotent(raw: string)
    requires NormalizeQC(raw).Success?
    ensures var name := NormalizeQC(raw).value;
      name[|name| - 1] != '-' ==> NormalizeQC(name) == Success(name)
  {
    NormalizeQCShape(raw);
    var name := NormalizeQC(raw).value;
    var prefix := Upper(Trim(Split(raw, '-')[0]));
    var block := name[|prefix| + 1..];
    if name[|name| - 1] != '-' {
      NormalFormIsFixed(name, prefix, block);
    }
  }

  lemma NormalFormIsFixed(name: string, prefix: string, block: string)
    requires name == prefix + "-" + block && name[|name| - 1] != '-'
    requires CleanPrefix(prefix) && CleanBlock(block)
    ensures NormalizeQC(name) == Success(name)
  {
    assert block != [] by {
      assert name[|name| - 1] == (prefix + "-" + block)[|name| - 1];
    }
    NormalizeQCOfNormal(prefix, block);
  }

  /** The first piece of a split is a prefix of the string. */
  lemma {:induction false} SplitFirstIsPrefix(s: string, sep: char)
    ensures var p := Split(s, sep)[0]; |p| <= |s| && s[..|p|] == p
  {
    if s != [] {
      SplitFirstIsPrefix(s[1..], sep);
    }
  }

  /** `RemoveSpaces` only drops characters. */
  lemma {:induction false} RemovedKeeps(s: string)
    ensures forall c :: c in RemoveSpaces(s) ==> c in s
  {
    if s != [] {
      RemovedKeeps(s[1..]);
    }
  }

  /** Which branch of `normalizeHostelName` a trimmed name takes: by its prefix, without regard to case. */
  datatype Form = KPForm | KeptForm | OtherForm

  function FormOf(t: string): Form {
    if StartsWith(Upper(t), "KP-") then KPForm
    else if StartsWith(Upper(t), "QC") || StartsWith(Upper(t), "HOUSE") then KeptForm
    else OtherForm
  }

  /** `normalizeHostelName` (lines 59-71): KP names are rewritten, QC and HOUSE names kept as trimmed, others refused. */
  function NormalizeHostelName(raw: string): Result<string, NameError> {
    var t := Trim(raw);
    match FormOf(t)
    case KPForm => NormalizeKP(t)
    case KeptForm => Success(t)
    case OtherForm => Failure(Unsupported)
  }

  /** `getHostelType` (lines 89-92), case-sensitive. */
  function HostelType(name: string): Option<string> {
    if StartsWith(name, "KP") then Some("BOYS")
    else if StartsWith(name, "QC") then Some("GIRLS")
    else None
  }

  lemma UpperCharIs(c: char, d: char)
    requires 'A' <= d <= 'Z' && UpperChar(c) == d
    ensures c == d || c == (d as int - 'A' as int + 'a' as int) as char
  {
  }

  /** A name whose prefix selects the KP branch is rewritten by `normalizeKPHostelName`. */
  lemma KPNameIsRewritten(raw: string)
    requires FormOf(Trim(raw)) == KPForm
    ensures NormalizeHostelName(raw) == NormalizeKP(Trim(raw))
  {
  }

  /** The text before the first '-' of a name starting "KP-" in either case upper-cases to "KP". */
  lemma KPPrefixOfUpper(t: string)
    requires StartsWith(Upper(t), "KP-")
    ensures Upper(Split(t, '-')[0]) == "KP"
  {
    var x := t[..2];
    assert t[2] == '-' by {
      assert Upper(t)[2] == '-';
      assert UpperChar(t[2]) == '-';
    }
    assert '-' !in x by {
      assert UpperChar(t[0]) == 'K' && UpperChar(t[1]) == 'P';
      UpperCharIs(t[0], 'K');
      UpperCharIs(t[1], 'P');
    }
    assert t == x + ['-'] + t[3..];
    SplitAtSeparator(x, '-', t[3..]);
    assert Upper(x) == "KP";
  }

  /** `${prefix}-…` begins with the prefix, then '-'. */
  predicate PrefixedBy(v: string, prefix: string) {
    |prefix| < |v| && v[..|prefix|] == prefix && v[|prefix|] == '-'
  }

  lemma KPNameStarts(prefix: string, n: int, suffix: string)
    ensures PrefixedBy(KPName(prefix, n, suffix), prefix)
  {
    var v := KPName(prefix, n, suffix);
    assert v == prefix + ("-" + IntToString(n) + suffix);
  }

  lemma {:induction false} KPRetryStarts(prefix: string, blockPart: string, i: nat)
    requires 1 <= i <= 3
    ensures KPRetry(prefix, blockPart, i).Success? ==> PrefixedBy(KPRetry(prefix, blockPart, i).value, prefix)
    decreases 3 - i
  {
    if i < 3 {
      match RomanValue(DropLast(blockPart, i))
      case Int(n) => KPNameStarts(prefix, n, TakeLast(blockPart, i));
      case NaN => KPRetryStarts(prefix, blockPart, i + 1);
    }
  }

  /** An accepted KP name starts with its upper-cased prefix and '-'. */
  lemma NormalizeKPStarts(raw: string)
    requires NormalizeKP(raw).Success?
    ensures |KPParts(raw)| >= 2 && PrefixedBy(NormalizeKP(raw).value, Upper(KPParts(raw)[0]))
  {
    var parts := KPParts(raw);
    var prefix := Upper(parts[0]);
    var blockPart := KPBlock(parts);
    var tokens := Split(blockPart, ' ');
    match RomanValue(tokens[0])
    case Int(n) => KPNameStarts(prefix, n, KPSuffix(parts, tokens));
    case NaN => KPRetryStarts(prefix, blockPart, 1);
  }

  /** A trimmed "KP-" name that `normalizeKPHostelName` accepts is typed BOYS. */
  lemma NormalizedKPTyped(t: string)
    requires Unpadded(t) && StartsWith(Upper(t), "KP-") && NormalizeKP(t).Success?
    ensures HostelType(NormalizeKP(t).value) == Some("BOYS")
  {
    TrimOfUnpadded(t);
    KPPrefixOfUpper(t);
    NormalizeKPStarts(t);
    var v := NormalizeKP(t).value;
    assert Upper(KPParts(t)[0]) == "KP";
    assert v[..2] == "KP";
  }

  /** A name whose prefix selects the kept branch comes back trimmed. */
  lemma KeptNameIsTrimmed(raw: string)
    requires FormOf(Trim(raw)) == KeptForm
    ensures NormalizeHostelName(raw) == Success(Trim(raw))
  {
  }

  /** A trimmed name starting with "QC" in either case selects the kept branch. */
  lemma QCIsKept(t: string)
    requires StartsWith(Upper(t), "QC")
    ensures FormOf(t) == KeptForm
  {
    assert Upper(t)[0] == 'Q';
  }

  /** A trimmed name starting with lower-case "qc" takes the kept branch and has no hostel type. */
  lemma LowerQCUntyped(t: string)
    requires StartsWith(t, "qc")
    ensures FormOf(t) == KeptForm && HostelType(t) == None
  {
    assert t[0] == 'q' && t[1] == 'c' by {
      assert t[..2] == "qc";
    }
    assert Upper(t)[..2] == "QC" by {
      assert Upper(t)[0] == UpperChar(t[0]) && Upper(t)[1] == UpperChar(t[1]);
    }
    QCIsKept(t);
  }

  /** A trimmed name starting with "QC" takes the kept branch and is typed GIRLS. */
  lemma UpperQCTyped(t: string)
    requires StartsWith(t, "QC")
    ensures FormOf(t) == KeptForm && HostelType(t) == Some("GIRLS")
  {
    assert t[0] == 'Q' && t[1] == 'C' by {
      assert t[..2] == "QC";
    }
    assert Upper(t)[..2] == "QC" by {
      assert Upper(t)[0] == UpperChar(t[0]) && Upper(t)[1] == UpperChar(t[1]);
    }
    QCIsKept(t);
  }

  // ---------------------------------------------------------------------
  // The spreadsheet upload (lines 158-170)
  // ---------------------------------------------------------------------

  /** Lines 158-164: the upload keeps a row whose name, upper-cased as given (untrimmed), starts with "KP" or "QC". */
  predicate UploadKeeps(name: string) {
    name != [] && (StartsWith(Upper(name), "KP") || StartsWith(Upper(name), "QC"))
  }

  /**
   * Lines 169-170: the name a kept row is stored under and the type stored
   * with it. The name is normalised, but the type is read from the name as
   * given; a normalisation error is thrown and ends the upload with a 500.
   */
  function UploadRow(name: string): Result<(string, Option<string>), NameError> {
    match NormalizeHostelName(name)
    case Success(n) => Success((n, HostelType(name)))
    case Failure(e) => Failure(e)
  }

  /** A row name with leading white space is dropped by the filter, although normalising would trim it. */
  lemma PaddedNameDropped(name: string)
    requires name != [] && IsSpace(name[0])
    ensures !UploadKeeps(name)
  {
    assert Upper(name)[0] == UpperChar(name[0]);
  }

  /** An upper-case "KP" row that normalises is stored typed BOYS, under a name that is itself typed BOYS. */
  lemma UploadedKPIsBoys(name: string)
    requires StartsWith(name, "KP") && UploadRow(name).Success?
    ensures UploadKeeps(name)
    ensures UploadRow(name).value.1 == Some("BOYS")
    ensures HostelType(UploadRow(name).value.0) == Some("BOYS")
  {
    TrimKeepsPrefix(name, "KP");
    var t := Trim(name);
    assert Upper(name)[..2] == "KP" by {
      assert Upper(name)[0] == UpperChar(name[0]) && Upper(name)[1] == UpperChar(name[1]);
    }
    assert Upper(t)[0] == 'K' by {
      assert t[0] == 'K';
    }
    assert FormOf(t) == KPForm;
    NormalizedKPTyped(t);
  }

  /** A name starting with lower-case "kp-" takes the KP branch and has no hostel type. */
  lemma LowerKPUntyped(t: string)
    requires StartsWith(t, "kp-")
    ensures FormOf(t) == KPForm && HostelType(t) == None && StartsWith(Upper(t), "KP")
  {
    assert t[0] == 'k' && t[1] == 'p' && t[2] == '-' by {
      assert t[..3] == "kp-";
    }
    assert Upper(t)[..3] == "KP-" by {
      assert Upper(t)[0] == UpperChar(t[0]) && Upper(t)[1] == UpperChar(t[1]) && Upper(t)[2] == UpperChar(t[2]);
    }
    assert Upper(t)[..2] == "KP";
  }

  /**
   * A lower-case "kp-" row passes the filter and is rewritten by the KP
   * normaliser into an upper-case "KP-" name, but is stored with no type,
   * since the type is read from the name as given.
   */
  lemma LowerCaseKPHasNoType(name: string)
    requires StartsWith(name, "kp-")
    ensures UploadKeeps(name)
    ensures NormalizeHostelName(name) == NormalizeKP(Trim(name))
    ensures UploadRow(name).Success? ==>
      UploadRow(name).value.1 == None && HostelType(UploadRow(name).value.0) == Some("BOYS")
  {
    var t := Trim(name);
    TrimKeepsPrefix(name, "kp-");
    LowerKPUntyped(t);
    LowerKPUntyped(name);
    KPNameIsRewritten(name);
    if NormalizeKP(t).Success? {
      NormalizedKPTyped(t);
    }
  }

  /** A row "KP 4" passes the filter but has no "KP-" prefix, so normalising it throws and the upload fails. */
  lemma FilteredRowRefused()
    ensures UploadKeeps("KP 4") && UploadRow("KP 4") == Failure(Unsupported)
  {
    TrimOfUnpadded("KP 4");
    assert Upper("KP 4") == "KP 4";
    assert Upper("KP 4")[..2] == "KP";
  }

  /** An upper-case "QC" row is stored under its trimmed name and typed GIRLS. */
  lemma UpperCaseQCIsGirls(name: string)
    requires StartsWith(name, "QC")
    ensures UploadKeeps(name)
    ensures UploadRow(name) == Success((Trim(name), Some("GIRLS")))
  {
    TrimKeepsPrefix(name, "QC");
    UpperQCTyped(Trim(name));
    KeptNameIsTrimmed(name);
    assert Upper(name)[..2] == "QC" by {
      assert Upper(name)[0] == UpperChar(name[0]) && Upper(name)[1] == UpperChar(name[1]);
    }
  }

  /** A lower-case "qc" row is stored under its trimmed name, case unchanged, with no type: the type test is case-sensitive. */
  lemma LowerCaseQCHasNoType(name: string)
    requires StartsWith(name, "qc")
    ensures UploadKeeps(name)
    ensures UploadRow(name) == Success((Trim(name), None))
  {
    TrimKeepsPrefix(name, "qc");
    LowerQCUntyped(Trim(name));
    KeptNameIsTrimmed(name);
    assert name[0] == 'q' && name[1] == 'c' by {
      assert name[..2] == "qc";
    }
    assert Upper(name)[..2] == "QC" by {
      assert Upper(name)[0] == UpperChar(name[0]) && Upper(name)[1] == UpperChar(name[1]);
    }
  }
}
