/**
 Spotify ids: sixteen bytes, printed as 22 base-62 digits and as `spotify:type:digits`
 (ids.go).
 */
module Ids {
  import opened Common
  import opened Positional

  type Gid = s: seq<byte> | |s| == 16 witness seq(16, _ => 0)

  datatype SpotifyId = SpotifyId(typ: string, id: Gid)

  /** Malformed text is an error; a number that does not fit sixteen bytes panics in FillBytes. */
  datatype Parsed = Ok(id: SpotifyId) | Malformed | Panicked

  const TEXT_LENGTH := 22
  const PREFIX := "spotify:"

  // ----- digits

  function DigitChar(d: nat): (c: char)
    requires d < 62
  {
    if d < 10 then '0' + d as char
    else if d < 36 then 'a' + (d - 10) as char
    else 'A' + (d - 36) as char
  }

  predicate IsLower(c: char) { 'a' <= c <= 'z' }

  predicate IsAlnum(c: char) { '0' <= c <= '9' || IsLower(c) || 'A' <= c <= 'Z' }

  function CharDigit(c: char): (d: nat)
    requires IsAlnum(c)
    ensures d < 62
  {
    if '0' <= c <= '9' then (c - '0') as int
    else if IsLower(c) then (c - 'a') as int + 10
    else (c - 'A') as int + 36
  }

  /** The digits are the decimal ones, then the small letters, then the capitals, each in order. */
  lemma DigitsInOrder(d: nat)
    requires d < 62
    ensures DigitChar(0) == '0' && DigitChar(9) == '9'
    ensures DigitChar(10) == 'a' && DigitChar(35) == 'z'
    ensures DigitChar(36) == 'A' && DigitChar(61) == 'Z'
    ensures d !in {9, 35, 61} ==> DigitChar(d + 1) as int == DigitChar(d) as int + 1
  {
  }

  lemma DigitRoundTrip(d: nat)
    requires d < 62
    ensures IsAlnum(DigitChar(d)) && CharDigit(DigitChar(d)) == d
  {
  }

  lemma CharRoundTrip(c: char)
    requires IsAlnum(c)
    ensures DigitChar(CharDigit(c)) == c
  {
  }

  predicate AllAlnum(s: string) {
    forall i :: 0 <= i < |s| ==> IsAlnum(s[i])
  }

  function Chars(ds: seq<nat>): (s: string)
    requires forall i :: 0 <= i < |ds| ==> ds[i] < 62
    ensures |s| == |ds|
    ensures forall i :: 0 <= i < |s| ==> s[i] == DigitChar(ds[i])
  {
    seq(|ds|, i requires 0 <= i < |ds| => DigitChar(ds[i]))
  }

  function DigitsOf(s: string): (ds: seq<nat>)
    requires forall i :: 0 <= i < |s| ==> IsAlnum(s[i])
    ensures |ds| == |s| && Digits(62, ds)
    ensures forall i :: 0 <= i < |s| ==> ds[i] == CharDigit(s[i])
  {
    seq(|s|, i requires 0 <= i < |s| => CharDigit(s[i]))
  }

  lemma DigitsOfChars(ds: seq<nat>)
    requires Digits(62, ds)
    ensures AllAlnum(Chars(ds)) && DigitsOf(Chars(ds)) == ds
  {
    forall i | 0 <= i < |ds|
      ensures IsAlnum(Chars(ds)[i]) && CharDigit(Chars(ds)[i]) == ds[i]
    {
      DigitRoundTrip(ds[i]);
    }
  }

  lemma CharsOfDigits(s: string)
    requires AllAlnum(s)
    ensures Chars(DigitsOf(s)) == s
  {
    forall i | 0 <= i < |s|
      ensures DigitChar(CharDigit(s[i])) == s[i]
    {
      CharRoundTrip(s[i]);
    }
  }

  // ----- printing

  /** big.Int.Text(62) */
  function Text(n: nat): string {
    if n == 0 then "0" else Chars(Minimal(62, n))
  }

  /** The repeat count must not be negative: strings.Repeat panics on an id that needs more digits. */
  function GidToBase62(id: seq<byte>): string
    requires |Text(Value(256, id))| <= TEXT_LENGTH
  {
    var s := Text(Value(256, id));
    seq(TEXT_LENGTH - |s|, _ => '0') + s
  }

  /** The arithmetic fact behind the 21 or 22 digits of a uri. */
  lemma GidFitsText()
    ensures Pow(256, 16) == 340282366920938463463374607431768211456
    ensures Pow(62, 21) < Pow(256, 16) < Pow(62, 22)
  {
    assert Pow(256, 4) == 4294967296;
    PowAdd(256, 4, 4);
    PowAdd(256, 8, 8);
    assert Pow(62, 5) == 916132832;
    PowAdd(62, 5, 5);
    PowAdd(62, 10, 10);
    PowAdd(62, 20, 1);
    PowAdd(62, 20, 2);
    assert Pow(62, 1) == 62;
    assert Pow(62, 2) == 3844;
  }

  /** Printing a gid is printing its number at the fixed width of 22 digits. */
  lemma PrintsFixed(id: Gid)
    ensures |Text(Value(256, id))| <= TEXT_LENGTH
    ensures GidToBase62(id) == Chars(Fixed(62, Value(256, id), TEXT_LENGTH))
  {
    var n := Value(256, id);
    ValueBound(256, id);
    GidFitsText();
    FixedIsPaddedMinimal(62, n, TEXT_LENGTH);
    if n == 0 {
      assert Minimal(62, n) == [];
    }
  }

  function Base62(id: Gid): (s: string)
    ensures |s| == TEXT_LENGTH && AllAlnum(s)
  {
    PrintsFixed(id);
    DigitsOfChars(Fixed(62, Value(256, id), TEXT_LENGTH));
    GidToBase62(id)
  }

  function Uri(id: SpotifyId): string {
    PREFIX + id.typ + ":" + Base62(id.id)
  }

  // ----- parsing

  /** big.Int.SetString(text, 62): an optional sign, then one digit or more and nothing else; here the magnitude. */
  function SetString(text: string): (r: Option<nat>)
    ensures text != "" && AllAlnum(text) ==> r == Some(Value(62, DigitsOf(text)))
  {
    var t := if text != "" && (text[0] == '+' || text[0] == '-') then text[1..] else text;
    if t == "" || !AllAlnum(t) then None
    else Some(Value(62, DigitsOf(t)))
  }

  function SpotifyIdFromBase62(typ: string, text: string): Parsed {
    match SetString(text)
    case None => Malformed
    case Some(n) =>
      if n >= Pow(256, 16) then Panicked else Ok(SpotifyId(typ, Fixed(256, n, 16)))
  }

  /** The length of the run of lower-case letters a string begins with. */
  function LowerRun(s: string): (k: nat)
    ensures k <= |s|
    ensures forall i :: 0 <= i < k ==> IsLower(s[i])
    ensures k < |s| ==> !IsLower(s[k])
  {
    if s == "" || !IsLower(s[0]) then 0 else 1 + LowerRun(s[1..])
  }

  predicate IsIdText(s: string) {
    21 <= |s| <= 22 && forall i :: 0 <= i < |s| ==> IsAlnum(s[i])
  }

  /** The two groups of the uri pattern, found by one pass from the left. */
  function MatchUri(uri: string): Option<(string, string)> {
    if !(PREFIX <= uri) then None
    else
      var rest := uri[|PREFIX|..];
      var k := LowerRun(rest);
      if k == 0 || k == |rest| || rest[k] != ':' || !IsIdText(rest[k + 1..]) then None
      else Some((rest[..k], rest[k + 1..]))
  }

  function SpotifyIdFromUri(uri: string): Parsed {
    match MatchUri(uri)
    case None => Malformed
    case Some((typ, text)) => SpotifyIdFromBase62(typ, text)
  }

  lemma SetStringExactly(text: string, digits: string)
    requires text == digits || text == "+" + digits || text == "-" + digits
    requires text == digits ==> !("+" <= text) && !("-" <= text)
    ensures SetString(text) == if digits != "" && AllAlnum(digits) then Some(Value(62, DigitsOf(digits))) else None
  {
    var t := if text != "" && (text[0] == '+' || text[0] == '-') then text[1..] else text;
    assert t == digits;
  }

  /**
   What SpotifyIdFromBase62 makes of any text: an optional sign is passed over, and the rest
   must be one digit or more, or the text is malformed; a number of 2^128 or more panics.
   */
  lemma TextExactly(typ: string, text: string, digits: string)
    requires text == digits || text == "+" + digits || text == "-" + digits
    requires text == digits ==> !("+" <= text) && !("-" <= text)
    ensures match SpotifyIdFromBase62(typ, text)
            case Malformed => digits == "" || !AllAlnum(digits)
            case Panicked => digits != "" && AllAlnum(digits) && Value(62, DigitsOf(digits)) >= Pow(256, 16)
            case Ok(id) =>
              && digits != "" && AllAlnum(digits)
              && id.typ == typ && Value(256, id.id) == Value(62, DigitsOf(digits)) < Pow(256, 16)
  {
    hide Pow, Fixed, Value, SetString;
    SetStringExactly(text, digits);
    if digits != "" && AllAlnum(digits) && Value(62, DigitsOf(digits)) < Pow(256, 16) {
      ValueFixed(256, Value(62, DigitsOf(digits)), 16);
    }
  }

  // ----- what printing and parsing promise each other

  predicate IsTypeName(s: string) {
    s != "" && forall i :: 0 <= i < |s| ==> IsLower(s[i])
  }

  /** The one-pass matcher accepts exactly the pattern, and the groups are the only ones possible. */
  lemma MatchUriCorrect(uri: string, typ: string, text: string)
    ensures MatchUri(uri) == Some((typ, text)) <==>
            uri == PREFIX + typ + ":" + text && IsTypeName(typ) && IsIdText(text)
  {
    if uri == PREFIX + typ + ":" + text && IsTypeName(typ) && IsIdText(text) {
      var rest := uri[|PREFIX|..];
      assert rest == typ + ":" + text;
      RunEnds(rest, |typ|);
      assert rest[..|typ|] == typ && rest[|typ| + 1..] == text;
    }
    if MatchUri(uri) == Some((typ, text)) {
      var rest := uri[|PREFIX|..];
      assert rest == typ + ":" + text;
      assert uri == PREFIX + rest == PREFIX + typ + ":" + text;
    }
  }

  lemma {:induction false} RunEnds(s: string, k: nat)
    requires k < |s| && !IsLower(s[k])
    requires forall i :: 0 <= i < k ==> IsLower(s[i])
    ensures LowerRun(s) == k
  {
    if k > 0 {
      RunEnds(s[1..], k - 1);
    }
  }

  /** Every gid prints to 22 digits that parse back to it. */
  lemma GidRoundTrip(typ: string, id: Gid)
    ensures |Base62(id)| == TEXT_LENGTH
    ensures SpotifyIdFromBase62(typ, Base62(id)) == Ok(SpotifyId(typ, id))
  {
    var n := Value(256, id);
    PrintsFixed(id);
    ValueBound(256, id);
    GidFitsText();
    DigitsOfChars(Fixed(62, n, TEXT_LENGTH));
    ValueFixed(62, n, TEXT_LENGTH);
    FixedValue(256, id);
  }

  /**
   Every text of 22 digits either stands for a number of sixteen bytes and reprints
   identically, or is at least 2^128 and panics; a text of 21 digits always fits and
   reprints with a zero in front.
   */
  lemma TextRoundTrip(typ: string, text: string)
    requires IsIdText(text)
    ensures var n := Value(62, DigitsOf(text));
            var padded := seq(TEXT_LENGTH - |text|, _ => '0') + text;
            var r := SpotifyIdFromBase62(typ, text);
            && (n < Pow(256, 16) <==> r.Ok?)
            && (r.Ok? ==> r.id.typ == typ && Base62(r.id.id) == padded)
            && (!r.Ok? ==> r == Panicked)
            && (|text| == 21 ==> r.Ok?)
  {
    hide Pow, Fixed, Value;
    ValueBound(62, DigitsOf(text));
    GidFitsText();
    if Value(62, DigitsOf(text)) < Pow(256, 16) {
      var n := Value(62, DigitsOf(text));
      ValueFixed(256, n, 16);
      Reprints(text, Fixed(256, n, 16));
    }
  }

  lemma Reprints(text: string, id: Gid)
    requires IsIdText(text) && Value(256, id) == Value(62, DigitsOf(text))
    ensures Base62(id) == seq(TEXT_LENGTH - |text|, _ => '0') + text
  {
    PrintsFixed(id);
    PadsTo(DigitsOf(text), TEXT_LENGTH);
    CharsPad(DigitsOf(text), TEXT_LENGTH - |text|);
    CharsOfDigits(text);
  }

  lemma CharsPad(ds: seq<nat>, k: nat)
    requires Digits(62, ds)
    ensures Chars(seq(k, _ => 0) + ds) == seq(k, _ => '0') + Chars(ds)
  {
  }

  lemma PadsTo(ds: seq<nat>, width: nat)
    requires Digits(62, ds) && |ds| <= width
    ensures Fixed(62, Value(62, ds), width) == seq(width - |ds|, _ => 0) + ds
  {
    ValueLeadingZeros(62, width - |ds|, ds);
    FixedValue(62, seq(width - |ds|, _ => 0) + ds);
  }

  /** Parsing the uri of an id gives the id back, exactly when its type is a word of lower-case letters. */
  lemma UriRoundTrip(id: SpotifyId)
    ensures SpotifyIdFromUri(Uri(id)) == Ok(id) <==> IsTypeName(id.typ)
  {
    if IsTypeName(id.typ) {
      MatchUriCorrect(Uri(id), id.typ, Base62(id.id));
      GidRoundTrip(id.typ, id.id);
    } else if MatchUri(Uri(id)).Some? {
      var (typ, text) := MatchUri(Uri(id)).value;
      MatchUriCorrect(Uri(id), typ, text);
    }
  }

  /** Two gids print to one uri only if they are the same, and a uri is never empty. */
  lemma UriOfGid(typ: string, a: Gid, b: Gid)
    ensures Uri(SpotifyId(typ, a)) == Uri(SpotifyId(typ, b)) <==> a == b
  {
    GidRoundTrip(typ, a);
    GidRoundTrip(typ, b);
    if Uri(SpotifyId(typ, a)) == Uri(SpotifyId(typ, b)) {
      var front := PREFIX + typ + ":";
      assert Base62(a) == Uri(SpotifyId(typ, a))[|front|..];
      assert Base62(b) == Uri(SpotifyId(typ, b))[|front|..];
    }
  }

  /** Printing what a 22-digit uri parsed to gives the uri back. */
  lemma UriReprints(uri: string)
    requires SpotifyIdFromUri(uri).Ok? && |MatchUri(uri).value.1| == TEXT_LENGTH
    ensures Uri(SpotifyIdFromUri(uri).id) == uri
  {
    var (typ, text) := MatchUri(uri).value;
    MatchUriCorrect(uri, typ, text);
    TextRoundTrip(typ, text);
    assert seq(0, _ => '0') + text == text;
  }
}
