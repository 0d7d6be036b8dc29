/**
  The string logic of the image modal: the three-level directory key a scene
  id becomes on the image bucket, the photo URL built from it, and the
  Wikimedia Commons links taken from the parts of an image's name.
 */
module ImageModal {
  import opened Wrappers

  const S3_IMAGES_URL: string := "https://megascenes.s3.us-west-2.amazonaws.com/images/"
  const WIKI_IMAGE_URL: string := "https://commons.wikimedia.org/wiki/File:"
  const WIKI_CAT_URL: string := "https://commons.wikimedia.org/wiki/Category:"

  /** Width the scene id is zero-padded to before it is cut in two. */
  const ID_WIDTH: nat := 6

  // ---------------------------------------------------------------------
  // Decimal digits
  // ---------------------------------------------------------------------

  predicate IsDigit(c: char) {
    '0' <= c <= '9'
  }

  predicate AllDigits(s: string) {
    forall i :: 0 <= i < |s| ==> IsDigit(s[i])
  }

  function DigitChar(d: nat): (c: char)
    requires d < 10
    ensures IsDigit(c)
  {
    ('0' as int + d) as char
  }

  function DigitValue(c: char): (d: nat)
    requires IsDigit(c)
    ensures d < 10
  {
    c as int - '0' as int
  }

  function Pow10(k: nat): (p: nat)
    ensures p >= 1
  {
    if k == 0 then 1 else 10 * Pow10(k - 1)
  }

  /** The number a string of decimal digits denotes (leading zeros allowed). */
  function ValueOf(s: string): (n: nat)
    requires AllDigits(s)
    ensures n < Pow10(|s|)
  {
    if s == [] then 0 else 10 * ValueOf(s[..|s| - 1]) + DigitValue(s[|s| - 1])
  }

  /**
    The decimal numeral of n with no leading zero, as Number.prototype.toString
    writes a non-negative integer.
   */
  function NatToString(n: nat): (s: string)
    ensures 1 <= |s| && AllDigits(s)
  {
    if n < 10 then [DigitChar(n)] else NatToString(n / 10) + [DigitChar(n % 10)]
  }

  /** id.toString() for an integral id: a minus sign, then the numeral of its magnitude. */
  function IntToString(id: int): (s: string)
    ensures |s| >= 1
    ensures s[0] == '-' <==> id < 0
    ensures id < 0 ==> |s| >= 2 && AllDigits(s[1..]) && ValueOf(s[1..]) == -id
    ensures id >= 0 ==> AllDigits(s) && ValueOf(s) == id
  {
    if id < 0 then
      NatToStringValue(-id);
      var digits := NatToString(-id);
      assert ("-" + digits)[1..] == digits;
      "-" + digits
    else
      NatToStringValue(id);
      NatToString(id)
  }

  /** Reading the numeral back gives the number. */
  lemma {:induction false} NatToStringValue(n: nat)
    ensures ValueOf(NatToString(n)) == n
  {
    var s := NatToString(n);
    if n >= 10 {
      NatToStringValue(n / 10);
      assert s[..|s| - 1] == NatToString(n / 10);
    }
  }

  /** The numeral of n has at most k digits (k at least one) exactly when n < 10^k. */
  lemma {:induction false} NatToStringLength(n: nat, k: nat)
    requires k >= 1
    ensures |NatToString(n)| <= k <==> n < Pow10(k)
  {
    if n >= 10 {
      assert |NatToString(n)| == |NatToString(n / 10)| + 1;
      if k > 1 {
        NatToStringLength(n / 10, k - 1);
      } else {
        assert |NatToString(n / 10)| >= 1;
      }
    }
  }

  /** n written with exactly k decimal digits: its lowest k digits, zeros in front. */
  function FixedDigits(n: nat, k: nat): (s: string)
    ensures |s| == k && AllDigits(s)
  {
    if k == 0 then [] else FixedDigits(n / 10, k - 1) + [DigitChar(n % 10)]
  }

  /** A k-digit field holds every number below 10^k faithfully. */
  lemma {:induction false} FixedDigitsValue(n: nat, k: nat)
    requires n < Pow10(k)
    ensures ValueOf(FixedDigits(n, k)) == n
  {
    if k > 0 {
      var s := FixedDigits(n, k);
      assert s[..k - 1] == FixedDigits(n / 10, k - 1);
      assert n / 10 < Pow10(k - 1);
      FixedDigitsValue(n / 10, k - 1);
    }
  }

  lemma {:induction false} FixedDigitsZero(k: nat)
    ensures FixedDigits(0, k) == seq(k, _ => '0')
  {
    if k > 0 {
      FixedDigitsZero(k - 1);
    }
  }

  // ---------------------------------------------------------------------
  // getId
  // ---------------------------------------------------------------------

  /** s.padStart(width, fill) with a one-character fill: fill characters in front up to width. */
  function PadStart(s: string, width: nat, fill: char): (r: string)
    ensures |r| == if |s| >= width then |s| else width
    ensures r[|r| - |s|..] == s
    ensures forall i :: 0 <= i < |r| - |s| ==> r[i] == fill
  {
    if |s| >= width then s else seq(width - |s|, _ => fill) + s
  }

  /**
    getId: the id's numeral, zero-padded to six characters, cut after its
    third character with a slash between the halves; characters past the
    sixth are dropped.
   */
  function GetId(id: int): (r: string)
    ensures |r| == 7 && r[3] == '/'
  {
    var padded := PadStart(IntToString(id), ID_WIDTH, '0');
    padded[0..3] + "/" + padded[3..6]
  }

  /** The six characters of a key with its slash taken out. */
  function Unslashed(key: string): string
    requires |key| == 7
  {
    key[..3] + key[4..]
  }

  /**
    Zero-padding the numeral of a number below 10^k to k characters writes
    it with exactly k digits.
   */
  lemma {:induction false} PaddedNumeral(n: nat, k: nat)
    requires 1 <= k && n < Pow10(k)
    ensures PadStart(NatToString(n), k, '0') == FixedDigits(n, k)
  {
    var d := [DigitChar(n % 10)];
    if n < 10 {
      FixedDigitsZero(k - 1);
      assert NatToString(n) == d;
    } else {
      var t := NatToString(n / 10);
      NatToStringLength(n / 10, k - 1);
      assert n / 10 < Pow10(k - 1);
      PaddedNumeral(n / 10, k - 1);
      assert PadStart(t + d, k, '0') == PadStart(t, k - 1, '0') + d;
    }
  }

  /**
    For an id below a million the key is the id written as exactly six
    decimal digits, leading zeros included, cut three and three; reading
    those digits back gives the id.
   */
  lemma GetIdInRange(id: int)
    requires 0 <= id < Pow10(ID_WIDTH)
    ensures Unslashed(GetId(id)) == FixedDigits(id, ID_WIDTH)
    ensures ValueOf(Unslashed(GetId(id))) == id
  {
    assert IntToString(id) == NatToString(id);
    PaddedNumeral(id, ID_WIDTH);
    FixedDigitsValue(id, ID_WIDTH);
    var padded := PadStart(NatToString(id), ID_WIDTH, '0');
    assert |padded| == ID_WIDTH;
    var key := GetId(id);
    assert key == padded[0..3] + "/" + padded[3..6];
    assert key[..3] == padded[0..3] && key[4..] == padded[3..6];
    assert padded[0..3] + padded[3..6] == padded;
  }

  /** Two ids below a million never share a key. */
  lemma GetIdInjective(a: int, b: int)
    requires 0 <= a < Pow10(ID_WIDTH) && 0 <= b < Pow10(ID_WIDTH)
    requires GetId(a) == GetId(b)
    ensures a == b
  {
    GetIdInRange(a);
    GetIdInRange(b);
  }

  /**
    From a million on, the key only sees the first six digits: dropping the
    last digit of the id leaves its key unchanged.
   */
  lemma GetIdLongIds(id: int)
    requires id >= Pow10(ID_WIDTH)
    ensures GetId(id) == GetId(id / 10)
  {
    NatToStringLength(id / 10, ID_WIDTH - 1);
    var s, t := NatToString(id), NatToString(id / 10);
    assert s == t + [DigitChar(id % 10)];
    assert s[0..3] == t[0..3] && s[3..6] == t[3..6];
  }

  /** The key of a non-negative id is made of digits around one slash. */
  lemma GetIdDigits(id: int)
    requires id >= 0
    ensures AllDigits(Unslashed(GetId(id)))
  {
    assert IntToString(id) == NatToString(id);
    var s := NatToString(id);
    var padded := PadStart(s, ID_WIDTH, '0');
    forall i | 0 <= i < |padded|
      ensures IsDigit(padded[i])
    {
      if i >= |padded| - |s| {
        assert padded[i] == padded[|padded| - |s|..][i - (|padded| - |s|)];
      }
    }
    assert Unslashed(GetId(id)) == padded[0..3] + padded[3..6];
  }

  /** Worked keys: short ids are zero-padded. */
  lemma GetIdShortExample()
    ensures GetId(42) == "000/042"
  {
    assert NatToString(42) == NatToString(4) + [DigitChar(2)];
    var padded := PadStart("42", ID_WIDTH, '0');
    assert padded == "0000" + "42";
    assert padded[0..3] == "000";
    assert padded[3..6] == "042";
  }

  lemma GetIdSixDigitExample()
    ensures GetId(123456) == "123/456"
  {
    assert NatToString(12) == NatToString(1) + [DigitChar(2)] == "12";
    assert NatToString(123) == NatToString(12) + [DigitChar(3)] == "123";
    assert NatToString(1234) == NatToString(123) + [DigitChar(4)] == "1234";
    assert NatToString(12345) == NatToString(1234) + [DigitChar(5)] == "12345";
    assert NatToString(123456) == NatToString(12345) + [DigitChar(6)] == "123456";
    var s := "123456";
    assert s[0..3] == "123";
    assert s[3..6] == "456";
  }

  /** A seven-digit id keeps its leading six digits. */
  lemma GetIdLongExample()
    ensures GetId(1234567) == "123/456"
  {
    var long, short := 1234567, 123456;
    assert long / 10 == short;
    GetIdLongIds(long);
    GetIdSixDigitExample();
  }

  /** A negative id is padded after its sign has been written, so the sign lands inside the key. */
  lemma GetIdNegativeExample()
    ensures GetId(-5) == "000/0-5"
  {
    assert IntToString(-5) == "-5";
    var padded := PadStart("-5", ID_WIDTH, '0');
    assert padded == "0000" + "-5";
    assert padded[0..3] == "000";
    assert padded[3..6] == "0-5";
  }

  /** A URL made of a base, a key, a slash and a name. */
  function KeyedUrl(base: string, key: string, name: string): string {
    base + key + "/" + name
  }

  /** Under one base, keys of one length and names can be read back off the URL. */
  lemma KeyedUrlInjective(base: string, keyA: string, nameA: string, keyB: string, nameB: string)
    requires |keyA| == |keyB|
    requires KeyedUrl(base, keyA, nameA) == KeyedUrl(base, keyB, nameB)
    ensures keyA == keyB && nameA == nameB
  {
    var u, n := KeyedUrl(base, keyA, nameA), |base| + |keyA|;
    assert keyA == u[|base|..n] == keyB;
    assert nameA == u[n + 1..] == nameB;
  }

  /** The photo URL fetched for an image: bucket, id key, a slash, then the image's name. */
  function PhotoUrl(id: int, name: string): (url: string)
    ensures |url| == |S3_IMAGES_URL| + 8 + |name|
  {
    KeyedUrl(S3_IMAGES_URL, GetId(id), name)
  }

  /** Distinct (scene, image name) pairs with ids below a million fetch distinct URLs. */
  lemma PhotoUrlInjective(a: int, nameA: string, b: int, nameB: string)
    requires 0 <= a < Pow10(ID_WIDTH) && 0 <= b < Pow10(ID_WIDTH)
    requires PhotoUrl(a, nameA) == PhotoUrl(b, nameB)
    ensures a == b && nameA == nameB
  {
    KeyedUrlInjective(S3_IMAGES_URL, GetId(a), nameA, GetId(b), nameB);
    GetIdInjective(a, b);
  }

  // ---------------------------------------------------------------------
  // name.split("/") and the Wikimedia links
  // ---------------------------------------------------------------------

  predicate NoSlash(s: string) {
    forall i :: 0 <= i < |s| ==> s[i] != '/'
  }

  /** s.split("/"): the pieces between slashes, one more piece than there are slashes. */
  function Split(s: string): (parts: seq<string>)
    ensures |parts| >= 1
    ensures forall k :: 0 <= k < |parts| ==> NoSlash(parts[k])
  {
    if s == [] then [""]
    else
      var rest := Split(s[1..]);
      if s[0] == '/' then [""] + rest
      else [[s[0]] + rest[0]] + rest[1..]
  }

  /** The pieces put back together with a slash between neighbours. */
  function Join(parts: seq<string>): string
    requires |parts| >= 1
  {
    if |parts| == 1 then parts[0] else parts[0] + "/" + Join(parts[1..])
  }

  function SlashCount(s: string): nat {
    if s == [] then 0 else (if s[0] == '/' then 1 else 0) + SlashCount(s[1..])
  }

  /** Splitting loses nothing: joining the pieces gives the name back. */
  lemma {:induction false} JoinSplit(s: string)
    ensures Join(Split(s)) == s
    ensures |Split(s)| == SlashCount(s) + 1
  {
    if s != [] {
      JoinSplit(s[1..]);
      var rest := Split(s[1..]);
      if s[0] == '/' {
        assert Split(s)[1..] == rest;
      } else {
        var head := [s[0]] + rest[0];
        if |rest| == 1 {
          assert Join(Split(s)) == head;
        } else {
          assert Split(s)[1..] == rest[1..];
          assert Join(rest) == rest[0] + "/" + Join(rest[1..]);
        }
      }
      assert s == [s[0]] + s[1..];
    }
  }

  /** Slash-free pieces are found again by splitting their join. */
  lemma {:induction false} SplitJoin(parts: seq<string>)
    requires |parts| >= 1
    requires forall k :: 0 <= k < |parts| ==> NoSlash(parts[k])
    ensures Split(Join(parts)) == parts
  {
    if |parts| == 1 {
      SplitPiece(parts[0], []);
    } else {
      SplitJoin(parts[1..]);
      SplitPiece(parts[0], Join(parts[1..]));
      assert [""] + parts[1..] == [""] + Split(Join(parts[1..]));
      assert parts == [parts[0]] + parts[1..];
    }
  }

  /**
    A slash-free piece in front of a slash and more: the first part is the
    piece, the rest is what the remainder splits into.
   */
  lemma {:induction false} SplitPiece(piece: string, rest: string)
    requires NoSlash(piece)
    ensures rest == [] ==> Split(piece) == [piece]
    ensures Split(piece + "/" + rest) == [piece] + Split(rest)
  {
    if piece == [] {
      assert piece + "/" + rest == "/" + rest;
      assert ("/" + rest)[1..] == rest;
    } else {
      SplitPiece(piece[1..], rest);
      assert (piece + "/" + rest)[1..] == piece[1..] + "/" + rest;
      assert [piece[0]] + piece[1..] == piece;
      if rest == [] {
        assert Split(piece[1..]) == [piece[1..]];
      }
    }
  }

  /** Destructuring slot k of the split: the piece when there is one, undefined otherwise. */
  function Segment(name: string, k: nat): (o: Option<string>)
    ensures o.Some? <==> SlashCount(name) >= k
    ensures o.Some? ==> NoSlash(o.value)
  {
    JoinSplit(name);
    var parts := Split(name);
    if k < |parts| then Some(parts[k]) else None
  }

  /** A value in a string concatenation: undefined is written out as "undefined". */
  function Render(o: Option<string>): string {
    match o
    case Some(v) => v
    case None => "undefined"
  }

  /** The category of an image: the second slash-separated piece of its name. */
  function Category(name: string): Option<string> {
    Segment(name, 1)
  }

  /** The Commons file of an image: the fifth slash-separated piece of its name. */
  function CommonsFile(name: string): Option<string> {
    Segment(name, 4)
  }

  /**
    The Commons link of an image: the file page of the fifth piece of its
    name, or of "undefined" when the name has fewer than four slashes.
   */
  function WikiImageUrl(name: string): (url: string)
    ensures |url| >= |WIKI_IMAGE_URL| && url[..|WIKI_IMAGE_URL|] == WIKI_IMAGE_URL
    ensures SlashCount(name) >= 4 ==> |Split(name)| > 4 && url[|WIKI_IMAGE_URL|..] == Split(name)[4]
    ensures SlashCount(name) < 4 ==> url[|WIKI_IMAGE_URL|..] == "undefined"
  {
    JoinSplit(name);
    var url := WIKI_IMAGE_URL + Render(CommonsFile(name));
    assert url[|WIKI_IMAGE_URL|..] == Render(CommonsFile(name));
    url
  }

  /**
    The category link of an image: the category page of the second piece of
    its name, or of "undefined" when the name has no slash.
   */
  function WikiCatUrl(name: string): (url: string)
    ensures |url| >= |WIKI_CAT_URL| && url[..|WIKI_CAT_URL|] == WIKI_CAT_URL
    ensures SlashCount(name) >= 1 ==> |Split(name)| > 1 && url[|WIKI_CAT_URL|..] == Split(name)[1]
    ensures SlashCount(name) < 1 ==> url[|WIKI_CAT_URL|..] == "undefined"
  {
    JoinSplit(name);
    var url := WIKI_CAT_URL + Render(Category(name));
    assert url[|WIKI_CAT_URL|..] == Render(Category(name));
    url
  }

  /**
    For a name laid out as the modal expects — slash-free pieces, the second
    the category and the fifth the file — the links point at exactly those,
    and pieces after the fifth change neither link.
   */
  lemma WikiLinks(parts: seq<string>)
    requires |parts| >= 5
    requires forall k :: 0 <= k < |parts| ==> NoSlash(parts[k])
    ensures WikiCatUrl(Join(parts)) == WIKI_CAT_URL + parts[1]
    ensures WikiImageUrl(Join(parts)) == WIKI_IMAGE_URL + parts[4]
  {
    var name := Join(parts);
    SplitJoin(parts);
    assert Category(name) == Some(parts[1]);
    assert CommonsFile(name) == Some(parts[4]);
  }

  /** A name with fewer than four slashes links to the file "undefined". */
  lemma WikiLinksShortName(name: string)
    requires SlashCount(name) < 4
    ensures WikiImageUrl(name) == WIKI_IMAGE_URL + "undefined"
    ensures SlashCount(name) == 0 ==> WikiCatUrl(name) == WIKI_CAT_URL + "undefined"
  {
  }
}
