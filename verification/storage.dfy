/** The storage key and the public link of an upload (app.py:78-80 and 108-109).

    The clock read `datetime.now()` is not modelled: the time is a parameter. The store's
    `get_public_url(key)` is not modelled either: the URL it returns is a parameter. */
module Storage {
  import opened Wrappers
  import opened Strings
  import FileNames
  import Percent

  /** The fields of a `datetime` that `%Y%m%d_%H%M%S` prints. */
  datatype Timestamp = Timestamp(year: nat, month: nat, day: nat, hour: nat, minute: nat, second: nat)

  predicate IsLeapYear(y: nat) {
    y % 4 == 0 && (y % 100 != 0 || y % 400 == 0)
  }

  function DaysInMonth(year: nat, month: nat): nat
    requires 1 <= month <= 12
  {
    if month == 2 then (if IsLeapYear(year) then 29 else 28)
    else if month == 4 || month == 6 || month == 9 || month == 11 then 30
    else 31
  }

  /** The values a Python `datetime` can hold (years 1 to 9999, real calendar dates). */
  predicate ValidTimestamp(t: Timestamp) {
    && 1 <= t.year <= 9999
    && 1 <= t.month <= 12
    && 1 <= t.day <= DaysInMonth(t.year, t.month)
    && t.hour < 24 && t.minute < 60 && t.second < 60
  }

  predicate IsDigit(c: char) {
    '0' <= c <= '9'
  }

  predicate AllDigits(s: string) {
    forall i :: 0 <= i < |s| ==> IsDigit(s[i])
  }

  function Pow10(n: nat): (p: nat)
    ensures p >= 1
  {
    if n == 0 then 1 else 10 * Pow10(n - 1)
  }

  /** The last `width` decimal digits of `n`, zero-padded on the left. */
  function Digits(n: nat, width: nat): (r: string)
    ensures |r| == width
    ensures AllDigits(r)
  {
    if width == 0 then "" else Digits(n / 10, width - 1) + [('0' as int + n % 10) as char]
  }

  /** The number a string of decimal digits spells. */
  function DigitsValue(s: string): nat
    requires AllDigits(s)
  {
    if |s| == 0 then 0 else DigitsValue(s[..|s| - 1]) * 10 + (s[|s| - 1] as int - '0' as int)
  }

  /** Reading back a padded number gives the number, when it fits in the width. */
  lemma {:induction false} DigitsRoundTrip(n: nat, width: nat)
    requires n < Pow10(width)
    ensures DigitsValue(Digits(n, width)) == n
  {
    if width > 0 {
      DigitsRoundTrip(n / 10, width - 1);
      var r := Digits(n, width);
      assert r[..|r| - 1] == Digits(n / 10, width - 1);
    }
  }

  /** `strftime("%Y%m%d_%H%M%S")` (app.py:79). */
  function FormatTimestamp(t: Timestamp): (r: string)
    requires ValidTimestamp(t)
    ensures |r| == 15 && r[8] == '_'
    ensures AllDigits(r[..8]) && AllDigits(r[9..])
  {
    var r := Digits(t.year, 4) + Digits(t.month, 2) + Digits(t.day, 2) + "_"
           + Digits(t.hour, 2) + Digits(t.minute, 2) + Digits(t.second, 2);
    assert r[..8] == Digits(t.year, 4) + Digits(t.month, 2) + Digits(t.day, 2);
    assert r[9..] == Digits(t.hour, 2) + Digits(t.minute, 2) + Digits(t.second, 2);
    r
  }

  /** Reads a `%Y%m%d_%H%M%S` string back into its fields. */
  function ParseTimestamp(s: string): Option<Timestamp> {
    if |s| == 15 && s[8] == '_' && AllDigits(s[..8]) && AllDigits(s[9..]) then
      var t := Timestamp(DigitsValue(s[0..4]), DigitsValue(s[4..6]), DigitsValue(s[6..8]),
                         DigitsValue(s[9..11]), DigitsValue(s[11..13]), DigitsValue(s[13..15]));
      if ValidTimestamp(t) then Some(t) else None
    else None
  }

  /** Every timestamp is printed in a form that reads back as itself. */
  lemma TimestampRoundTrip(t: Timestamp)
    requires ValidTimestamp(t)
    ensures ParseTimestamp(FormatTimestamp(t)) == Some(t)
  {
    var s := FormatTimestamp(t);
    var hms := Digits(t.hour, 2) + Digits(t.minute, 2) + Digits(t.second, 2);
    assert s == Digits(t.year, 4) + Digits(t.month, 2) + Digits(t.day, 2) + "_" + hms;
    assert s[9..] == hms;
    assert s[0..4] == Digits(t.year, 4);
    assert s[4..6] == Digits(t.month, 2);
    assert s[6..8] == Digits(t.day, 2);
    assert s[9..11] == Digits(t.hour, 2);
    assert s[11..13] == Digits(t.minute, 2);
    assert s[13..15] == Digits(t.second, 2);
    assert Pow10(2) == 100 && Pow10(4) == 10000;
    DigitsRoundTrip(t.year, 4);
    DigitsRoundTrip(t.month, 2);
    DigitsRoundTrip(t.day, 2);
    DigitsRoundTrip(t.hour, 2);
    DigitsRoundTrip(t.minute, 2);
    DigitsRoundTrip(t.second, 2);
  }

  /** `supabase_path = f"{timestamp}_{safe_filename}"` (app.py:80). */
  function StorageKey(t: Timestamp, safeName: string): (key: string)
    requires ValidTimestamp(t)
    ensures |key| == 16 + |safeName|
    ensures key[16..] == safeName
  {
    FormatTimestamp(t) + "_" + safeName
  }

  /** Splits a storage key back into its time and its file name. */
  function ParseKey(key: string): Option<(Timestamp, string)> {
    if |key| >= 16 && key[15] == '_' then
      match ParseTimestamp(key[..15])
      case Some(t) => Some((t, key[16..]))
      case None => None
    else None
  }

  /** A storage key determines the time and the name it was built from. */
  lemma KeyRoundTrip(t: Timestamp, safeName: string)
    requires ValidTimestamp(t)
    ensures ParseKey(StorageKey(t, safeName)) == Some((t, safeName))
  {
    var key := StorageKey(t, safeName);
    assert key[..15] == FormatTimestamp(t);
    TimestampRoundTrip(t);
  }

  /** Two uploads share a key only when they happen in the same second and their names
      sanitize to the same string. */
  lemma KeyInjective(t1: Timestamp, n1: string, t2: Timestamp, n2: string)
    requires ValidTimestamp(t1) && ValidTimestamp(t2)
    requires StorageKey(t1, n1) == StorageKey(t2, n2)
    ensures t1 == t2 && n1 == n2
  {
    KeyRoundTrip(t1, n1);
    KeyRoundTrip(t2, n2);
  }

  /** A key built from a sanitized name holds only unreserved characters. */
  lemma KeyIsUnreserved(t: Timestamp, safeName: string)
    requires ValidTimestamp(t)
    requires forall i :: 0 <= i < |safeName| ==> FileNames.IsFileNameChar(safeName[i])
    ensures forall i :: 0 <= i < |StorageKey(t, safeName)| ==> Percent.IsUnreserved(StorageKey(t, safeName)[i])
  {
    var key := StorageKey(t, safeName);
    var ts := FormatTimestamp(t);
    assert key[..15] == ts;
    forall i | 0 <= i < |key|
      ensures Percent.IsUnreserved(key[i])
    {
      if i < 8 {
        assert key[i] == ts[..8][i];
      } else if 9 <= i < 15 {
        assert key[i] == ts[9..][i - 9];
      } else if i >= 16 {
        assert key[i] == safeName[i - 16];
      }
    }
  }

  /** `raw_url.rsplit("/", 1)[0]`: everything before the last `/`, or all of `raw` when
      it has none. */
  function UrlBase(raw: string): (r: string)
    ensures '/' !in raw ==> r == raw
    ensures '/' in raw ==> |r| < |raw| && raw[..|r|] == r && raw[|r|] == '/' && '/' !in raw[|r| + 1..]
  {
    if '/' !in raw then raw
    else if raw[|raw| - 1] == '/' then raw[..|raw| - 1]
    else
      var init := raw[..|raw| - 1];
      assert '/' in init by {
        var k :| 0 <= k < |raw| && raw[k] == '/';
        assert init[k] == '/';
      }
      var r := UrlBase(init);
      assert raw[|r| + 1..] == init[|r| + 1..] + [raw[|raw| - 1]];
      r
  }

  /** `UrlBase` is the part before the last `/`: cutting `p + "/" + tail` for a `tail`
      free of `/` gives back `p`. */
  lemma UrlBaseOfJoin(p: string, tail: string)
    requires '/' !in tail
    ensures UrlBase(p + "/" + tail) == p
  {
    var raw := p + "/" + tail;
    assert raw[|p|] == '/';
    assert raw[..|p|] == p;
  }

  /** The text after the last `/` of a URL. */
  function LastSegment(url: string): string {
    if '/' in url then url[|UrlBase(url)| + 1..] else url
  }

  /** `public_url` (app.py:109): the store's URL cut before its last `/`, then `/` and
      the quoted key. */
  function PublicUrl(rawUrl: string, key: string): string {
    UrlBase(rawUrl) + "/" + Percent.Quote(key)
  }

  /** A key built from a sanitized name is left alone by `quote` and has no `/`. */
  lemma KeyQuotesToItself(t: Timestamp, safeName: string)
    requires ValidTimestamp(t)
    requires forall i :: 0 <= i < |safeName| ==> FileNames.IsFileNameChar(safeName[i])
    ensures Percent.Quote(StorageKey(t, safeName)) == StorageKey(t, safeName)
    ensures '/' !in StorageKey(t, safeName)
  {
    var key := StorageKey(t, safeName);
    KeyIsUnreserved(t, safeName);
    Percent.QuoteIdentity(key);
    forall i | 0 <= i < |key| ensures key[i] != '/' {
      assert Percent.IsUnreserved(key[i]);
    }
  }

  /** For a key that `quote` leaves alone and that has no `/`, the link is the store's
      URL cut before its last `/`, then `/` and the key; the key is its last segment. */
  lemma PlainKeyLink(rawUrl: string, key: string)
    requires Percent.Quote(key) == key
    requires '/' !in key
    ensures PublicUrl(rawUrl, key) == UrlBase(rawUrl) + "/" + key
    ensures LastSegment(PublicUrl(rawUrl, key)) == key
  {
    var url := PublicUrl(rawUrl, key);
    UrlBaseOfJoin(UrlBase(rawUrl), key);
    assert url[|UrlBase(rawUrl)|] == '/';
  }

  /** The link for a key built from any name of allowed characters is the store's URL
      cut before its last `/`, then `/` and the key itself; the key is its last segment. */
  lemma CleanKeyLink(t: Timestamp, safeName: string, rawUrl: string)
    requires ValidTimestamp(t)
    requires forall i :: 0 <= i < |safeName| ==> FileNames.IsFileNameChar(safeName[i])
    ensures PublicUrl(rawUrl, StorageKey(t, safeName)) == UrlBase(rawUrl) + "/" + StorageKey(t, safeName)
    ensures LastSegment(PublicUrl(rawUrl, StorageKey(t, safeName))) == StorageKey(t, safeName)
  {
    KeyQuotesToItself(t, safeName);
    PlainKeyLink(rawUrl, StorageKey(t, safeName));
  }

  /** The link shown for an upload, whatever the original name: the store's URL cut
      before its last `/`, a `/`, then the storage key unquoted; the key is the link's
      last segment. */
  lemma UploadLink(d: FileNames.Decomposition, t: Timestamp, name: string, rawUrl: string)
    requires ValidTimestamp(t)
    ensures PublicUrl(rawUrl, StorageKey(t, FileNames.Sanitize(d, name)))
         == UrlBase(rawUrl) + "/" + StorageKey(t, FileNames.Sanitize(d, name))
    ensures LastSegment(PublicUrl(rawUrl, StorageKey(t, FileNames.Sanitize(d, name))))
         == StorageKey(t, FileNames.Sanitize(d, name))
  {
    CleanKeyLink(t, FileNames.Sanitize(d, name), rawUrl);
  }
}
