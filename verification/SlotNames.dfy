/** Ballast file names and the pattern that recognises them (src/ballast/manager.rs). */
module SlotNames {
  import opened Basics
  import opened Decimal

  const PREFIX: string := "SBH_BALLAST_FILE_"
  const SUFFIX: string := ".dat"

  /** The canonical name of a slot: the index, zero-padded to five digits. */
  function SlotName(index: nat): string {
    PREFIX + Pad(Format(index), 5) + SUFFIX
  }

  /** A `.dat` extension in any ASCII case. */
  predicate HasDatExtension(name: string) {
    && |name| >= 4
    && var ext := name[|name| - 4..];
    && ext[0] == '.' && ext[1] in "dD" && ext[2] in "aA" && ext[3] in "tT"
  }

  /** The text between prefix and extension, when the name has both and something between them. */
  function NumberPart(name: string): Option<string> {
    if PREFIX <= name && HasDatExtension(name) && |name| > |PREFIX| + |SUFFIX|
    then Some(name[|PREFIX|..|name| - |SUFFIX|])
    else None
  }

  /** The slot index a file name claims, if it matches the ballast pattern. */
  function ClaimedIndex(name: string): Option<nat> {
    match NumberPart(name)
    case None => None
    case Some(text) => ParseUnsigned(text, U32_LIMIT)
  }

  /** Names the pruner treats as leftovers of a larger or mis-numbered pool. */
  predicate ClaimsOrphan(name: string, count: nat) {
    match ClaimedIndex(name)
    case None => false
    case Some(index) => index > count || index == 0
  }

  /** Parsing a canonical name gives its index back, past the five-digit padding too. */
  lemma ClaimedIndexOfSlotName(index: u32)
    ensures ClaimedIndex(SlotName(index)) == Some(index)
  {
    var name := SlotName(index);
    var digits := Pad(Format(index), 5);
    ParseOfPaddedFormat(index, 5, U32_LIMIT);
    PartsOfName(PREFIX, digits, SUFFIX);
    assert NumberPart(name) == Some(digits);
  }

  lemma SlotNamesAreInjective()
    ensures forall i: u32, j: u32 :: SlotName(i) == SlotName(j) ==> i == j
  {
    forall i: u32, j: u32 | SlotName(i) == SlotName(j)
      ensures i == j
    {
      ClaimedIndexOfSlotName(i);
      ClaimedIndexOfSlotName(j);
    }
  }

  /** The names the pruner recognises: prefix, a number, and `.dat` in any case. Padding is not
      required, so a slot index can be claimed by other names than the canonical one. */
  lemma ClaimedIndexIff(name: string, index: nat)
    ensures ClaimedIndex(name) == Some(index) <==>
            exists number, ext :: IsClaim(name, number, ext, index)
  {
    if ClaimedIndex(name) == Some(index) {
      ClaimsAreShaped(name, index);
    }
    if number, ext :| IsClaim(name, number, ext, index) {
      ShapesAreClaims(name, number, ext, index);
    }
  }

  lemma ClaimsAreShaped(name: string, index: nat)
    requires ClaimedIndex(name) == Some(index)
    ensures exists number, ext :: IsClaim(name, number, ext, index)
  {
    var number, ext := name[|PREFIX|..|name| - 4], name[|name| - 4..];
    NameSplits(name, |PREFIX|, |name| - 4);
    assert HasDatExtension(ext);
    SpellingIff(ext);
    assert IsClaim(name, number, ext, index);
  }

  lemma NameSplits(name: string, a: nat, b: nat)
    requires a <= b <= |name|
    ensures name == name[..a] + name[a..b] + name[b..]
  {
  }

  lemma ShapesAreClaims(name: string, number: string, ext: string, index: nat)
    requires IsClaim(name, number, ext, index)
    ensures ClaimedIndex(name) == Some(index)
  {
    PartsOfName(PREFIX, number, ext);
    SpellingIff(ext);
    assert HasDatExtension(name);
    assert NumberPart(name) == Some(number);
  }

  /** `.dat` with each letter in either case. */
  predicate SpellsDat(ext: string) {
    |ext| == 4 && forall i :: 0 <= i < 4 ==> ext[i] == ".dat"[i] || ext[i] == ".DAT"[i]
  }

  lemma SpellingIff(ext: string)
    requires |ext| == 4
    ensures HasDatExtension(ext) <==> SpellsDat(ext)
  {
    assert ext[|ext| - 4..] == ext;
    assert ".dat"[0] == ".DAT"[0] == '.' && ".dat"[1] == 'd' && ".dat"[2] == 'a' && ".dat"[3] == 't';
    assert ".DAT"[1] == 'D' && ".DAT"[2] == 'A' && ".DAT"[3] == 'T';
    if HasDatExtension(ext) {
      assert ext[0] == '.' && ext[1] in "dD" && ext[2] in "aA" && ext[3] in "tT";
    }
  }

  /** At least five digits, and no more zeros in front than that takes. */
  predicate SlotDigits(digits: string, index: nat) {
    AllDigits(digits) && Value(digits) == index && |digits| >= 5 && (|digits| > 5 ==> digits[0] != '0')
  }

  lemma PaddedDigits(index: nat)
    ensures SlotDigits(Pad(Format(index), 5), index)
  {
    var numeral := Format(index);
    ValueOfFormat(index);
    if |numeral| < 5 {
      ValueOfZerosThen(5 - |numeral|, numeral);
    } else if |numeral| > 5 {
      NoLeadingZero(index);
    }
  }

  /** A canonical name. */
  lemma SlotNameIs(index: nat)
    ensures exists digits :: SlotDigits(digits, index) && SlotName(index) == "SBH_BALLAST_FILE_" + digits + ".dat"
  {
    PaddedDigits(index);
  }

  lemma {:induction false} NoLeadingZero(n: nat)
    ensures |Format(n)| > 1 ==> Format(n)[0] != '0'
    ensures n > 0 ==> Format(n)[0] != '0'
  {
    if n >= 10 {
      NoLeadingZero(n / 10);
      ValueOfFormat(n / 10);
    }
  }

  lemma PartsOfName(prefix: string, number: string, ext: string)
    requires |ext| == 4
    ensures var name := prefix + number + ext;
            name[|prefix|..|name| - 4] == number && name[|name| - 4..] == ext && prefix <= name
  {
  }

  ghost predicate IsClaim(name: string, number: string, ext: string, index: nat) {
    && name == "SBH_BALLAST_FILE_" + number + ext && SpellsDat(ext)
    && ParseUnsigned(number, U32_LIMIT) == Some(index)
  }
}
