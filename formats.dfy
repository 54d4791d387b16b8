/** The strings the ingestion pipeline computes (main.go:311, 322, 334):
    the object key, the catalog URL and the notification body, together with
    Go's `%d` rendering of a non-negative integer. Each format has a parser as
    its partner, and the lemmas show that parsing recovers what was formatted. */
module Formats {
  import opened Outcomes

  // ---------------------------------------------------------------------
  // Decimal rendering (`%d` of a non-negative integer)
  // ---------------------------------------------------------------------

  predicate IsDigit(c: char) {
    '0' <= c <= '9'
  }

  predicate AllDigits(s: string) {
    forall i :: 0 <= i < |s| ==> IsDigit(s[i])
  }

  /** What `%d` prints for a non-negative integer: at least one digit and no
      leading zero unless the number is zero itself. */
  predicate IsCanonicalDecimal(s: string) {
    |s| >= 1 && AllDigits(s) && (|s| > 1 ==> s[0] != '0')
  }

  function DigitValue(c: char): (d: nat)
    requires IsDigit(c)
    ensures d < 10
  {
    c as int - '0' as int
  }

  function DigitChar(d: nat): (c: char)
    requires d < 10
    ensures IsDigit(c) && DigitValue(c) == d
  {
    ('0' as int + d) as char
  }

  /** `fmt.Sprintf("%d", n)` for n >= 0. */
  function Decimal(n: nat): (s: string)
    ensures IsCanonicalDecimal(s)
    ensures n != 0 ==> s[0] != '0'
  {
    if n < 10 then [DigitChar(n)] else Decimal(n / 10) + [DigitChar(n % 10)]
  }

  /** The number a string of digits denotes (most significant digit first). */
  function ValueOf(s: string): nat
    requires AllDigits(s)
  {
    if s == [] then 0 else ValueOf(s[..|s| - 1]) * 10 + DigitValue(s[|s| - 1])
  }

  /** Reading back what `%d` printed gives the number. */
  lemma {:induction false} DecimalRoundTrip(n: nat)
    ensures ValueOf(Decimal(n)) == n
  {
    var s := Decimal(n);
    if n < 10 {
      assert s[..|s| - 1] == [];
    } else {
      assert s[..|s| - 1] == Decimal(n / 10);
      DecimalRoundTrip(n / 10);
    }
  }

  /** A string of digits without a leading zero denotes a positive number. */
  lemma {:induction false} LeadingNonZeroIsPositive(s: string)
    requires |s| >= 1 && AllDigits(s) && s[0] != '0'
    ensures ValueOf(s) >= 1
  {
    if |s| > 1 {
      LeadingNonZeroIsPositive(s[..|s| - 1]);
    }
  }

  /** Every canonical decimal string is what `%d` prints for its value, so
      `Decimal` is a bijection between the naturals and canonical strings. */
  lemma {:induction false} DecimalOfValue(s: string)
    requires IsCanonicalDecimal(s)
    ensures Decimal(ValueOf(s)) == s
  {
    var last := s[|s| - 1];
    if |s| == 1 {
      assert s[..0] == [];
      assert DigitChar(DigitValue(last)) == last;
      assert s == [last];
    } else {
      var p := s[..|s| - 1];
      assert p[0] == s[0];
      DecimalOfValue(p);
      LeadingNonZeroIsPositive(p);
      var v := ValueOf(s);
      assert v == ValueOf(p) * 10 + DigitValue(last);
      assert v / 10 == ValueOf(p) && v % 10 == DigitValue(last);
      assert DigitChar(DigitValue(last)) == last;
      assert s == p + [last];
    }
  }

  /** The partner of `Decimal`: accepts exactly the strings `%d` can print. */
  function ParseDecimal(s: string): (r: Option<nat>)
    ensures r.Some? <==> IsCanonicalDecimal(s)
    ensures r.Some? ==> Decimal(r.value) == s
  {
    if IsCanonicalDecimal(s) then DecimalOfValue(s); Some(ValueOf(s)) else None
  }

  lemma DecimalParses(n: nat)
    ensures ParseDecimal(Decimal(n)) == Some(n)
  {
    DecimalRoundTrip(n);
  }

  /** Length of the run of digits at the start of `s`. */
  function LeadingDigitCount(s: string): (n: nat)
    ensures n <= |s| && AllDigits(s[..n])
    ensures n < |s| ==> !IsDigit(s[n])
  {
    if s == [] || !IsDigit(s[0]) then 0
    else
      var n := 1 + LeadingDigitCount(s[1..]);
      assert s[..n] == [s[0]] + s[1..][..n - 1];
      n
  }

  /** Length of the run of digits at the end of `s`. */
  function TrailingDigitCount(s: string): (n: nat)
    ensures n <= |s| && AllDigits(s[|s| - n..])
    ensures n < |s| ==> !IsDigit(s[|s| - n - 1])
  {
    if s == [] || !IsDigit(s[|s| - 1]) then 0
    else
      var p := s[..|s| - 1];
      var n := 1 + TrailingDigitCount(p);
      assert s[|s| - n..] == p[|p| - (n - 1)..] + [s[|s| - 1]];
      n
  }

  // ---------------------------------------------------------------------
  // Object key: `fmt.Sprintf("%d_%s", time.Now().Unix(), filename)`
  // ---------------------------------------------------------------------

  /** The key an upload is stored under: Unix seconds in decimal, an
      underscore, then the original file name (main.go:311). */
  function ObjectKey(unixSeconds: nat, filename: string): string {
    Decimal(unixSeconds) + "_" + filename
  }

  /** The partner of `ObjectKey`: splits a key at the underscore that ends
      its leading run of digits. */
  function SplitObjectKey(key: string): (r: Option<(nat, string)>)
    ensures r.Some? ==> ObjectKey(r.value.0, r.value.1) == key
  {
    var n := LeadingDigitCount(key);
    if n < |key| && key[n] == '_' && IsCanonicalDecimal(key[..n]) then
      DecimalOfValue(key[..n]);
      assert key == key[..n] + "_" + key[n + 1..];
      Some((ValueOf(key[..n]), key[n + 1..]))
    else None
  }

  /** The digits of the timestamp end exactly where the separator begins,
      whatever the file name is (it may itself start with digits or `_`). */
  lemma LeadingDigitsOfKey(unixSeconds: nat, filename: string)
    ensures LeadingDigitCount(ObjectKey(unixSeconds, filename)) == |Decimal(unixSeconds)|
  {
    var d := Decimal(unixSeconds);
    var key := ObjectKey(unixSeconds, filename);
    var n := LeadingDigitCount(key);
    assert key[|d|] == '_';
    assert forall i :: 0 <= i < |d| ==> key[i] == d[i];
  }

  lemma ObjectKeyRoundTrip(unixSeconds: nat, filename: string)
    ensures SplitObjectKey(ObjectKey(unixSeconds, filename)) == Some((unixSeconds, filename))
  {
    var d := Decimal(unixSeconds);
    var key := ObjectKey(unixSeconds, filename);
    LeadingDigitsOfKey(unixSeconds, filename);
    assert key[..|d|] == d;
    assert key[|d| + 1..] == filename;
    DecimalRoundTrip(unixSeconds);
  }

  /** Two uploads get the same key only when they happen in the same second
      with the same file name. */
  lemma ObjectKeyInjective(t1: nat, f1: string, t2: nat, f2: string)
    requires ObjectKey(t1, f1) == ObjectKey(t2, f2)
    ensures t1 == t2 && f1 == f2
  {
    ObjectKeyRoundTrip(t1, f1);
    ObjectKeyRoundTrip(t2, f2);
  }

  // ---------------------------------------------------------------------
  // Catalog URL: `fmt.Sprintf("%s/%s/%s", S3_ENDPOINT, S3_BUCKET, info.Key)`
  // ---------------------------------------------------------------------

  function UrlPrefix(endpoint: string, bucket: string): string {
    endpoint + "/" + bucket + "/"
  }

  /** The retrieval URL recorded in the catalog for a stored key (main.go:322). */
  function CatalogUrl(endpoint: string, bucket: string, key: string): string {
    UrlPrefix(endpoint, bucket) + key
  }

  /** The partner of `CatalogUrl`: the object key a catalog URL refers to in
      the given endpoint and bucket, if it refers to one at all. */
  function ObjectKeyOfUrl(endpoint: string, bucket: string, url: string): (k: Option<string>)
    ensures k.Some? <==> |UrlPrefix(endpoint, bucket)| <= |url| && url[..|UrlPrefix(endpoint, bucket)|] == UrlPrefix(endpoint, bucket)
    ensures k.Some? ==> CatalogUrl(endpoint, bucket, k.value) == url
  {
    var p := UrlPrefix(endpoint, bucket);
    if |p| <= |url| && url[..|p|] == p then
      assert url == p + url[|p|..];
      Some(url[|p|..])
    else None
  }

  lemma UrlRoundTrip(endpoint: string, bucket: string, key: string)
    ensures ObjectKeyOfUrl(endpoint, bucket, CatalogUrl(endpoint, bucket, key)) == Some(key)
  {
    var p := UrlPrefix(endpoint, bucket);
    var url := CatalogUrl(endpoint, bucket, key);
    assert url[..|p|] == p;
    assert url[|p|..] == key;
  }

  // ---------------------------------------------------------------------
  // Notification mail (main.go:331-334)
  // ---------------------------------------------------------------------

  const MailFrom := "recipe@zerops.io"
  const MailTo := "recipient@example.com"
  const MailSubject := "File successfully uploaded"

  const BodyPrefix := "File "
  const SizeSeparator := " - "
  // The source's spelling ("succesfully") is kept.
  const BodySuffix := "B succesfully uploaded to s3."

  /** `fmt.Sprintf("File %s - %dB succesfully uploaded to s3.", info.Key, info.Size)`. */
  function MailBody(key: string, size: nat): string {
    BodyPrefix + key + SizeSeparator + Decimal(size) + BodySuffix
  }

  /** `s` with `prefix` removed from its front and `suffix` from its back,
      if it has both. */
  function StripAround(s: string, prefix: string, suffix: string): (r: Option<string>)
    ensures r.Some? ==> prefix + r.value + suffix == s
  {
    if |s| < |prefix| + |suffix| || s[..|prefix|] != prefix || s[|s| - |suffix|..] != suffix then None
    else
      var mid := s[|prefix|..|s| - |suffix|];
      assert s == s[..|prefix|] + mid + s[|s| - |suffix|..];
      Some(mid)
  }

  lemma StripAroundRoundTrip(prefix: string, mid: string, suffix: string)
    ensures StripAround(prefix + mid + suffix, prefix, suffix) == Some(mid)
  {
    var s := prefix + mid + suffix;
    assert s[..|prefix|] == prefix;
    assert s[|s| - |suffix|..] == suffix;
    assert s[|prefix|..|s| - |suffix|] == mid;
  }

  /** Splits `s` into a head, the separator `sep` and the run of digits that
      ends `s`, read as a number. */
  function SplitTrailingNumber(s: string, sep: string): (r: Option<(string, nat)>)
    ensures r.Some? ==> r.value.0 + sep + Decimal(r.value.1) == s
  {
    var n := TrailingDigitCount(s);
    var digits := s[|s| - n..];
    var rest := s[..|s| - n];
    if IsCanonicalDecimal(digits) && |rest| >= |sep| && rest[|rest| - |sep|..] == sep then
      var head := rest[..|rest| - |sep|];
      DecimalOfValue(digits);
      assert rest == head + sep;
      assert s == rest + digits;
      Some((head, ValueOf(digits)))
    else None
  }

  /** When the separator does not end in a digit, the number is found again
      whatever the head holds (digits, or copies of the separator). */
  lemma SplitTrailingNumberRoundTrip(head: string, sep: string, n: nat)
    requires |sep| >= 1 && !IsDigit(sep[|sep| - 1])
    ensures SplitTrailingNumber(head + sep + Decimal(n), sep) == Some((head, n))
  {
    var d := Decimal(n);
    var rest := head + sep;
    var s := rest + d;
    assert head + sep + d == s;
    TrailingDigitsAfter(rest, d);
    assert s[|s| - |d|..] == d;
    assert s[..|s| - |d|] == rest;
    assert rest[|rest| - |sep|..] == sep;
    assert rest[..|rest| - |sep|] == head;
    DecimalRoundTrip(n);
  }

  /** The trailing run of digits of `x + d` is exactly `d` when `x` ends in a
      non-digit. */
  lemma TrailingDigitsAfter(x: string, d: string)
    requires |x| >= 1 && !IsDigit(x[|x| - 1]) && AllDigits(d)
    ensures TrailingDigitCount(x + d) == |d|
  {
    var s := x + d;
    var k := TrailingDigitCount(s);
    assert s[|s| - |d| - 1] == x[|x| - 1];
    assert forall i :: 0 <= i < |d| ==> s[|s| - |d| + i] == d[i];
  }

  /** The partner of `MailBody`: recovers the key and the size from a body.
      The size is the run of digits before the suffix; the key is everything
      between the prefix and the ` - ` in front of that run, so a key that
      itself contains ` - ` or ends in digits is still recovered whole. */
  function ParseMailBody(body: string): (r: Option<(string, nat)>)
    ensures r.Some? ==> MailBody(r.value.0, r.value.1) == body
  {
    match StripAround(body, BodyPrefix, BodySuffix)
    case None => None
    case Some(mid) => SplitTrailingNumber(mid, SizeSeparator)
  }

  lemma MailBodyRoundTrip(key: string, size: nat)
    ensures ParseMailBody(MailBody(key, size)) == Some((key, size))
  {
    var mid := key + SizeSeparator + Decimal(size);
    assert MailBody(key, size) == BodyPrefix + mid + BodySuffix;
    StripAroundRoundTrip(BodyPrefix, mid, BodySuffix);
    SplitTrailingNumberRoundTrip(key, SizeSeparator, size);
  }
}
