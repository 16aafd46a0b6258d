/** The brute-force listing of the Caesar page (`handleBruteForce`): one entry
    per shift 0..25, `Shift i: ` followed by the first 50 code units of the
    decryption with shift `i` and `...` when it was longer, the entries
    joined by a blank line. */
module BruteForce {
  import opened TextUnits
  import opened Caesar

  /** `${n}` for a natural number: its decimal digits, most significant first. */
  function Decimal(n: nat): (r: Text)
    ensures 1 <= |r|
    ensures forall k :: 0 <= k < |r| ==> IsDigit(r[k])
    ensures r[0] == 48 ==> n == 0
  {
    if n < 10 then [48 + n] else Decimal(n / 10) + [48 + n % 10]
  }

  /** The number a string of decimal digits stands for. */
  function DecimalValue(s: Text): nat
    requires forall k :: 0 <= k < |s| ==> IsDigit(s[k])
  {
    if s == [] then 0
    else
      assert IsDigit(s[|s| - 1]);
      DecimalValue(s[..|s| - 1]) * 10 + (s[|s| - 1] as int - 48)
  }

  /** Reading the digits back gives the number. */
  lemma {:induction false} DecimalRoundTrip(n: nat)
    ensures DecimalValue(Decimal(n)) == n
  {
    if n >= 10 {
      DecimalRoundTrip(n / 10);
      var d := Decimal(n);
      assert d[..|d| - 1] == Decimal(n / 10);
    }
  }

  /** `s.substring(0, n)`: the first `n` code units, or all of `s` when it
      is shorter. */
  function Prefix(s: Text, n: nat): (r: Text)
    ensures |r| == if |s| < n then |s| else n
    ensures r <= s
  {
    if |s| <= n then s else s[..n]
  }

  /** How many code units of each decryption an entry shows. */
  const Shown: nat := 50

  /** `Shift ${shift}: `. */
  function Header(shift: nat): (h: Text)
    ensures |h| == |Decimal(shift)| + 8
    ensures h[..6] == Ascii("Shift ") && h[|h| - 2..] == Ascii(": ")
  {
    Ascii("Shift ") + Decimal(shift) + Ascii(": ")
  }

  /** The entry for one shift. */
  function Entry(text: Text, shift: nat): (e: Text)
    ensures Header(shift) <= e
  {
    var decrypted := CaesarCipher(text, shift, false);
    Header(shift) + Prefix(decrypted, Shown) + (if |decrypted| > Shown then Ascii("...") else [])
  }

  /** The 26 entries, for shifts 0..25 in ascending order. */
  function Entries(text: Text): (entries: seq<Text>)
    ensures |entries| == 26
  {
    seq(26, i requires 0 <= i < 26 => Entry(text, i))
  }

  /** `parts.join(sep)`. */
  function Join(parts: seq<Text>, sep: Text): (r: Text)
    ensures parts == [] ==> r == []
    ensures parts != [] ==> parts[0] <= r
  {
    if parts == [] then []
    else if |parts| == 1 then parts[0]
    else Join(parts[..|parts| - 1], sep) + sep + parts[|parts| - 1]
  }

  /** Where part `k` begins in the joined text: after the parts before it and
      one separator after each of them. */
  function Offset(parts: seq<Text>, sep: Text, k: nat): nat
    requires k <= |parts|
  {
    if k == 0 then 0 else Offset(parts, sep, k - 1) + |parts[k - 1]| + |sep|
  }

  const Separator: Text := Ascii("\n\n")

  /** The text the brute-force button puts in the output box. */
  function BruteForceListing(text: Text): (listing: Text)
    ensures Entry(text, 0) <= listing
  {
    Join(Entries(text), Separator)
  }

  /** Offsets of the first parts do not depend on the parts after them. */
  lemma {:induction false} OffsetOfPrefix(parts: seq<Text>, sep: Text, n: nat, k: nat)
    requires k <= n <= |parts|
    ensures Offset(parts[..n], sep, k) == Offset(parts, sep, k)
  {
    if k > 0 {
      OffsetOfPrefix(parts, sep, n, k - 1);
      assert parts[..n][k - 1] == parts[k - 1];
    }
  }

  /** The joined text ends right after the last part. */
  lemma {:induction false} JoinLength(parts: seq<Text>, sep: Text)
    requires parts != []
    ensures |Join(parts, sep)| == Offset(parts, sep, |parts| - 1) + |parts[|parts| - 1]|
  {
    var n := |parts|;
    if n > 1 {
      var init := parts[..n - 1];
      JoinLength(init, sep);
      OffsetOfPrefix(parts, sep, n - 1, n - 2);
    }
  }

  /** Joining the first `n` parts gives a prefix of joining them all. */
  lemma {:induction false} JoinPrefix(parts: seq<Text>, sep: Text, n: nat)
    requires 1 <= n <= |parts|
    ensures Join(parts[..n], sep) <= Join(parts, sep)
    decreases |parts| - n
  {
    if n < |parts| {
      var m := |parts|;
      assert parts[..m - 1][..n] == parts[..n];
      JoinPrefix(parts[..m - 1], sep, n);
      assert Join(parts, sep) == Join(parts[..m - 1], sep) + sep + parts[m - 1];
    } else {
      assert parts[..n] == parts;
    }
  }

  /** Joining the first `k + 1` parts adds a separator and part `k` to
      joining the first `k`. */
  lemma JoinUpTo(parts: seq<Text>, sep: Text, k: nat)
    requires 0 < k < |parts|
    ensures Join(parts[..k + 1], sep) == Join(parts[..k], sep) + sep + parts[k]
  {
    var upto := parts[..k + 1];
    assert upto[..k] == parts[..k];
  }

  /** Joining the first `k` parts ends one separator before `Offset(k)`. */
  lemma JoinUpToLength(parts: seq<Text>, sep: Text, k: nat)
    requires 0 < k <= |parts|
    ensures |Join(parts[..k], sep)| + |sep| == Offset(parts, sep, k)
  {
    JoinLength(parts[..k], sep);
    OffsetOfPrefix(parts, sep, k, k - 1);
  }

  /** A slice inside a prefix is the same slice of the whole. */
  lemma SliceOfPrefix(a: Text, b: Text, lo: nat, hi: nat)
    requires a <= b && lo <= hi <= |a|
    ensures b[lo..hi] == a[lo..hi]
  {
    assert a == b[..|a|];
  }

  /** The middle and last pieces of a three-piece concatenation. */
  lemma SliceOfConcat(x: Text, y: Text, z: Text)
    ensures (x + y + z)[|x|..|x| + |y|] == y
    ensures (x + y + z)[|x| + |y|..|x| + |y| + |z|] == z
  {
  }

  /** Joining lays the parts out one after another: part `k` sits at
      `Offset(k)` and a separator sits right before every part but the
      first; with `JoinLength` no separator comes before the first part or
      after the last one. */
  lemma JoinBlock(parts: seq<Text>, sep: Text, k: nat)
    requires k < |parts|
    ensures Offset(parts, sep, k) + |parts[k]| <= |Join(parts, sep)|
    ensures Join(parts, sep)[Offset(parts, sep, k)..Offset(parts, sep, k) + |parts[k]|] == parts[k]
    ensures k > 0 ==> (|sep| <= Offset(parts, sep, k) &&
      Join(parts, sep)[Offset(parts, sep, k) - |sep|..Offset(parts, sep, k)] == sep)
  {
    var j := Join(parts[..k + 1], sep);
    JoinPrefix(parts, sep, k + 1);
    var o := Offset(parts, sep, k);
    if k == 0 {
      assert j == parts[0];
    } else {
      var before := Join(parts[..k], sep);
      JoinUpTo(parts, sep, k);
      JoinUpToLength(parts, sep, k);
      SliceOfConcat(before, sep, parts[k]);
      SliceOfPrefix(j, Join(parts, sep), o - |sep|, o);
    }
    SliceOfPrefix(j, Join(parts, sep), o, o + |parts[k]|);
  }

  /** What each entry shows: its header names the shift (the digits read back
      as the shift), then the decryption cut to 50 code units, then `...`
      exactly when the input is longer than 50, which does not depend on the
      shift, so either every entry has it or none does. */
  lemma EntryLayout(text: Text, shift: nat)
    ensures var e, h := Entry(text, shift), Header(shift);
      var shown := if |text| <= Shown then |text| else Shown;
      |e| == |h| + shown + (if |text| > Shown then 3 else 0) &&
      e[..6] == Ascii("Shift ") &&
      e[6..6 + |Decimal(shift)|] == Decimal(shift) &&
      DecimalValue(e[6..6 + |Decimal(shift)|]) == shift &&
      e[|h|..|h| + shown] == CaesarCipher(text, shift, false)[..shown] &&
      (|text| > Shown ==> e[|e| - 3..] == Ascii("..."))
  {
    var e, h := Entry(text, shift), Header(shift);
    var decrypted := CaesarCipher(text, shift, false);
    var shown := if |text| <= Shown then |text| else Shown;
    var tail: Text := if |decrypted| > Shown then Ascii("...") else [];
    assert e == h + Prefix(decrypted, Shown) + tail;
    assert e[..6] == h[..6];
    assert e[6..6 + |Decimal(shift)|] == h[6..6 + |Decimal(shift)|];
    assert e[|h|..|h| + shown] == Prefix(decrypted, Shown);
    DecimalRoundTrip(shift);
  }

  /** Shift 0 changes nothing, so the first entry shows the input itself. */
  lemma FirstEntryShowsInput(text: Text)
    ensures Entry(text, 0) ==
      Header(0) + Prefix(text, Shown) + (if |text| > Shown then Ascii("...") else [])
  {
    CaesarZeroShift(text, 0, false);
  }

  /** The listing holds the 26 entries in ascending shift order: entry `i`
      sits at `Offset(i)` and a blank line comes right before every entry
      but the first. */
  lemma ListingLayout(text: Text, i: nat)
    requires i < 26
    ensures var listing, o := BruteForceListing(text), Offset(Entries(text), Separator, i);
      o + |Entry(text, i)| <= |listing| &&
      listing[o..o + |Entry(text, i)|] == Entry(text, i) &&
      (i > 0 ==> 2 <= o && listing[o - 2..o] == Separator)
  {
    var entries := Entries(text);
    assert BruteForceListing(text) == Join(entries, Separator);
    JoinBlock(entries, Separator, i);
    assert entries[i] == Entry(text, i);
  }

  /** The listing starts with entry 0 and ends with entry 25: no blank line
      before the first entry or after the last. */
  lemma ListingEnds(text: Text)
    ensures Offset(Entries(text), Separator, 0) == 0
    ensures Offset(Entries(text), Separator, 25) + |Entry(text, 25)| == |BruteForceListing(text)|
  {
    var entries := Entries(text);
    JoinLength(entries, Separator);
    assert entries[25] == Entry(text, 25);
  }

  /** For the empty input every entry is its bare header. */
  lemma EmptyInputEntry(shift: nat)
    ensures Entry([], shift) == Header(shift)
  {
  }

  /** The header for shifts 0 and 1. */
  lemma FirstHeaders()
    ensures Header(0) == Ascii("Shift 0: ")
    ensures Header(1) == Ascii("Shift 1: ")
  {
  }

  /** The first two blocks of the listing for the empty input. */
  lemma EmptyInputBlocks()
    ensures |BruteForceListing([])| >= 20
    ensures BruteForceListing([])[..9] == Header(0)
    ensures BruteForceListing([])[9..11] == Separator
    ensures BruteForceListing([])[11..20] == Header(1)
  {
    var entries := Entries([]);
    EmptyInputEntry(0);
    EmptyInputEntry(1);
    assert entries[0] == Header(0) && entries[1] == Header(1);
    assert |Header(0)| == 9 && |Header(1)| == 9;
    ListingLayout([], 0);
    ListingLayout([], 1);
    assert Offset(entries, Separator, 1) == 11;
  }

  /** For example, the listing for the empty input begins `Shift 0: `,
      a blank line, and `Shift 1: `. */
  lemma EmptyInputListing()
    ensures BruteForceListing([])[..20] == Ascii("Shift 0: ") + Separator + Ascii("Shift 1: ")
  {
    var listing := BruteForceListing([]);
    EmptyInputBlocks();
    FirstHeaders();
    assert listing[..20] == listing[..9] + listing[9..11] + listing[11..20];
  }
}
