/**
 * The logic of the photo diary's HTTP server that is not framework glue:
 * the name under which an upload is stored, the answer to `POST /upload`,
 * and the answer to `GET /list`.
 */
module Server {
  import opened Wrappers
  import opened Text
  import opened Sorting

  const Underscore: CodeUnit := '_' as int as CodeUnit
  const Dash: CodeUnit := '-' as int as CodeUnit
  const Dot: CodeUnit := '.' as int as CodeUnit

  /** Membership in the character class `[a-zA-Z0-9._-]`. */
  predicate IsSafe(c: CodeUnit) {
    IsLower(c) || IsUpper(c) || IsDigit(c) || c == Dot || c == Underscore || c == Dash
  }

  predicate AllSafe(s: Str) {
    forall i | 0 <= i < |s| :: IsSafe(s[i])
  }

  function SanitizeUnit(c: CodeUnit): CodeUnit {
    if IsSafe(c) then c else Underscore
  }

  /** The global replacement of every character outside the safe class by
      an underscore. The pattern has no Unicode flag, so its negated class
      matches single code units, line terminators included. Each unsafe code
      unit therefore becomes one underscore. */
  function Sanitize(name: Str): (r: Str)
    ensures |r| == |name|
    ensures forall i | 0 <= i < |name| && IsSafe(name[i]) :: r[i] == name[i]
    ensures forall i | 0 <= i < |name| && !IsSafe(name[i]) :: r[i] == Underscore
  {
    if name == [] then [] else [SanitizeUnit(name[0])] + Sanitize(name[1..])
  }

  /** Every code unit of a sanitized name is in the safe class. */
  lemma SanitizeIsSafe(name: Str)
    ensures AllSafe(Sanitize(name))
  {
  }

  /** Sanitizing changes a name exactly when it holds an unsafe code unit. */
  lemma SanitizeFixesSafeNames(name: Str)
    ensures Sanitize(name) == name <==> AllSafe(name)
  {
    if !AllSafe(name) {
      var i :| 0 <= i < |name| && !IsSafe(name[i]);
      assert Sanitize(name)[i] != name[i];
    }
  }

  lemma SanitizeIdempotent(name: Str)
    ensures Sanitize(Sanitize(name)) == Sanitize(name)
  {
    SanitizeIsSafe(name);
    SanitizeFixesSafeNames(Sanitize(name));
  }

  /** The replacement is global: each part of a name is sanitized on its own. */
  lemma SanitizeAppend(a: Str, b: Str)
    ensures Sanitize(a + b) == Sanitize(a) + Sanitize(b)
  {
    assert forall i | 0 <= i < |a| :: (a + b)[i] == a[i];
    assert forall i | |a| <= i < |a + b| :: (a + b)[i] == b[i - |a|];
  }

  function DigitUnit(k: nat): CodeUnit
    requires k < 10
  {
    ('0' as int + k) as CodeUnit
  }

  predicate AllDigits(s: Str) {
    forall i | 0 <= i < |s| :: IsDigit(s[i])
  }

  /** The decimal digits without leading zeros, as a number's `toString` writes them. */
  predicate Canonical(s: Str) {
    |s| > 0 && AllDigits(s) && (|s| > 1 ==> s[0] != DigitUnit(0))
  }

  /** The timestamp as the template string writes a whole number of milliseconds. */
  function Decimal(n: nat): (r: Str)
    ensures Canonical(r)
  {
    if n < 10 then [DigitUnit(n)] else Decimal(n / 10) + [DigitUnit(n % 10)]
  }

  /** The number a string of decimal digits denotes. */
  function DigitsValue(s: Str): nat
    requires AllDigits(s)
  {
    if s == [] then 0
    else DigitsValue(s[..|s| - 1]) * 10 + (s[|s| - 1] as int - '0' as int)
  }

  lemma {:induction false} DecimalRoundTrip(n: nat)
    ensures DigitsValue(Decimal(n)) == n
  {
    if n >= 10 {
      var r := Decimal(n);
      assert r[..|r| - 1] == Decimal(n / 10);
      DecimalRoundTrip(n / 10);
    }
  }

  lemma {:induction false} CanonicalPositive(s: Str)
    requires Canonical(s) && |s| > 1
    ensures DigitsValue(s) >= 10
  {
    var p := s[..|s| - 1];
    if |p| > 1 {
      CanonicalPositive(p);
    }
  }

  /** Every canonical digit string is the decimal form of its value, so
      Decimal and DigitsValue are inverse bijections. */
  lemma {:induction false} CanonicalRoundTrip(s: Str)
    requires Canonical(s)
    ensures Decimal(DigitsValue(s)) == s
  {
    if |s| > 1 {
      var p := s[..|s| - 1];
      CanonicalPositive(s);
      CanonicalRoundTrip(p);
      assert s == p + [s[|s| - 1]];
    }
  }

  /** The name multer's `filename` callback builds: timestamp, dash, sanitized name. */
  function StoredName(timestamp: nat, original: Str): (r: Str)
    ensures |r| == |Decimal(timestamp)| + 1 + |original|
    ensures AllSafe(r)
  {
    SanitizeIsSafe(original);
    var digits := Decimal(timestamp);
    assert AllSafe(digits) by {
      forall i | 0 <= i < |digits| ensures IsSafe(digits[i]) {
        assert IsDigit(digits[i]);
      }
    }
    digits + [Dash] + Sanitize(original)
  }

  /** The position of the first `c` in `s`, or `|s|` when there is none. */
  function FirstIndexOf(s: Str, c: CodeUnit): (k: nat)
    ensures k <= |s|
    ensures forall i | 0 <= i < k :: s[i] != c
    ensures k < |s| ==> s[k] == c
  {
    if s == [] then 0 else if s[0] == c then 0 else 1 + FirstIndexOf(s[1..], c)
  }

  datatype StoredParts = StoredParts(timestamp: nat, safeName: Str)

  /** Reads a stored name back: the digits before the first dash and the rest. */
  function ParseStored(r: Str): Option<StoredParts> {
    var k := FirstIndexOf(r, Dash);
    if k == |r| || k == 0 || !AllDigits(r[..k]) then None
    else Some(StoredParts(DigitsValue(r[..k]), r[k + 1..]))
  }

  /** A stored name starts with the timestamp's digits, then the first dash,
      then exactly the sanitized original name. */
  lemma StoredNameShape(timestamp: nat, original: Str)
    ensures var r := StoredName(timestamp, original);
            var k := |Decimal(timestamp)|;
            && FirstIndexOf(r, Dash) == k
            && r[..k] == Decimal(timestamp) && AllDigits(r[..k])
            && r[k + 1..] == Sanitize(original)
  {
    var r := StoredName(timestamp, original);
    var k := |Decimal(timestamp)|;
    assert r[..k] == Decimal(timestamp);
    assert r[k] == Dash;
    assert forall i | 0 <= i < k :: r[i] != Dash by {
      assert forall i | 0 <= i < k :: r[i] == Decimal(timestamp)[i];
    }
  }

  /** Parsing a stored name gives back the timestamp and the sanitized name. */
  lemma StoredNameRoundTrip(timestamp: nat, original: Str)
    ensures ParseStored(StoredName(timestamp, original))
            == Some(StoredParts(timestamp, Sanitize(original)))
  {
    StoredNameShape(timestamp, original);
    DecimalRoundTrip(timestamp);
  }

  /** The stored name is unique per (timestamp, sanitized name) pair: two
      uploads collide exactly when both agree. */
  lemma StoredNameInjective(t1: nat, o1: Str, t2: nat, o2: Str)
    ensures StoredName(t1, o1) == StoredName(t2, o2)
            <==> t1 == t2 && Sanitize(o1) == Sanitize(o2)
  {
    if StoredName(t1, o1) == StoredName(t2, o2) {
      StoredNameRoundTrip(t1, o1);
      StoredNameRoundTrip(t2, o2);
    }
  }

  /** The code units of "My Photo!.JPG" sanitize to those of "My_Photo_.JPG":
      the space and the `!` are replaced. */
  lemma SanitizeExampleUnits(original: Str)
    requires original == [77, 121, 32, 80, 104, 111, 116, 111, 33, 46, 74, 80, 71]
    ensures Sanitize(original) == [77, 121, 95, 80, 104, 111, 116, 111, 95, 46, 74, 80, 71]
  {
    var expected: Str := [77, 121, 95, 80, 104, 111, 116, 111, 95, 46, 74, 80, 71];
    var r := Sanitize(original);
    forall i | 0 <= i < |original| ensures r[i] == expected[i] {
      if i == 2 || i == 8 {
        assert !IsSafe(original[i]);
      } else {
        assert IsSafe(original[i]);
      }
    }
  }

  /** The original name "My Photo!.JPG" sanitizes to "My_Photo_.JPG". */
  lemma SanitizeExample(original: Str)
    requires original == Ascii("My Photo!.JPG")
    ensures Sanitize(original) == Ascii("My_Photo_.JPG")
  {
    AsciiExampleNames();
    SanitizeExampleUnits(original);
  }

  /** The code units of the two example names. */
  lemma AsciiExampleNames()
    ensures Ascii("My Photo!.JPG") == [77, 121, 32, 80, 104, 111, 116, 111, 33, 46, 74, 80, 71]
    ensures Ascii("My_Photo_.JPG") == [77, 121, 95, 80, 104, 111, 116, 111, 95, 46, 74, 80, 71]
  {
  }

  /** An upload named "My Photo!.JPG" is stored as digits, a dash and
      "My_Photo_.JPG". */
  lemma StoredNameExample(timestamp: nat, original: Str)
    requires original == Ascii("My Photo!.JPG")
    ensures ParseStored(StoredName(timestamp, original))
            == Some(StoredParts(timestamp, Ascii("My_Photo_.JPG")))
  {
    StoredNameRoundTrip(timestamp, original);
    SanitizeExample(original);
  }

  /** What `upload.single('file')` leaves in `req.file` that the handler reads. */
  datatype UploadedFile = UploadedFile(filename: Str)

  datatype Body =
    | ErrorBody(error: Str)
    | UploadBody(message: Str, filename: Str, url: Str)
    | FilesBody(files: seq<Str>)

  datatype Response = Response(status: nat, body: Body)

  const UploadsPrefix: Str := Ascii("/uploads/")

  /** The `POST /upload` handler after multer has run. */
  function Upload(file: Option<UploadedFile>): (r: Response)
    ensures r.status == 400 <==> file.None?
    ensures file.None? ==> r.body == ErrorBody(Ascii("No file uploaded"))
    ensures file.Some? ==> r.status == 200 && r.body.UploadBody?
                           && r.body.message == Ascii("Upload successful")
                           && r.body.filename == file.value.filename
                           && r.body.url == UploadsPrefix + file.value.filename
  {
    match file
    case None => Response(400, ErrorBody(Ascii("No file uploaded")))
    case Some(f) =>
      Response(200, UploadBody(Ascii("Upload successful"), f.filename, UploadsPrefix + f.filename))
  }

  /** The file name a `/uploads/` URL serves, if it is one. */
  function UrlFilename(url: Str): Option<Str> {
    if |UploadsPrefix| <= |url| && url[..|UploadsPrefix|] == UploadsPrefix
    then Some(url[|UploadsPrefix|..]) else None
  }

  /** The URL of a successful upload names, under `/uploads/`, the stored
      file, whose name in turn gives back the timestamp and sanitized name. */
  lemma UploadUrlRoundTrip(timestamp: nat, original: Str)
    ensures var r := Upload(Some(UploadedFile(StoredName(timestamp, original))));
            && r.body.UploadBody?
            && UrlFilename(r.body.url) == Some(StoredName(timestamp, original))
            && ParseStored(UrlFilename(r.body.url).value)
               == Some(StoredParts(timestamp, Sanitize(original)))
  {
    var name := StoredName(timestamp, original);
    assert (UploadsPrefix + name)[|UploadsPrefix|..] == name;
    StoredNameRoundTrip(timestamp, original);
  }

  /** The truthiness filter on the listing: it drops the empty names. */
  function NonEmpty(files: seq<Str>): (r: seq<Str>)
    ensures multiset(r) == multiset(files)[[] := 0]
  {
    if files == [] then []
    else
      assert files == [files[0]] + files[1..];
      (if files[0] == [] then [] else [files[0]]) + NonEmpty(files[1..])
  }

  /** The non-empty names, sorted with the reversed comparison (descending). */
  function ListFiles(files: seq<Str>): (r: seq<Str>)
    ensures multiset(r) == multiset(files)[[] := 0]
    ensures Sorted(Descending, r)
    ensures forall x :: x in r <==> x in files && x != []
  {
    SortPermutes(Descending, NonEmpty(files));
    SortSorted(Descending, NonEmpty(files));
    NonEmptyMembers(files, Sort(Descending, NonEmpty(files)));
    Sort(Descending, NonEmpty(files))
  }

  lemma NonEmptyMembers(files: seq<Str>, r: seq<Str>)
    requires multiset(r) == multiset(files)[[] := 0]
    ensures forall x :: x in r <==> x in files && x != []
  {
    forall x ensures x in r <==> x in files && x != [] {
      assert x in r <==> x in multiset(r);
      assert x in files <==> x in multiset(files);
    }
  }

  /** Any listing of the non-empty names in non-increasing order is the one
      ListFiles returns: the result does not depend on the sort algorithm. */
  lemma ListFilesDetermined(files: seq<Str>, r: seq<Str>)
    requires multiset(r) == multiset(files)[[] := 0]
    requires Sorted(Descending, r)
    ensures r == ListFiles(files)
  {
    SortedUnique(Descending, r, ListFiles(files));
  }

  /** A directory of N non-empty names, repeats counted, lists all N of them. */
  lemma ListFilesCount(files: seq<Str>)
    requires forall i | 0 <= i < |files| :: files[i] != []
    ensures |ListFiles(files)| == |files|
  {
    assert [] !in multiset(files);
    assert multiset(files)[[] := 0] == multiset(files);
    assert |multiset(ListFiles(files))| == |multiset(files)|;
  }

  /** The `GET /list` handler, given what `fs.readdir` produced: the entries,
      or None when reading the directory failed. */
  function List(listing: Option<seq<Str>>): (r: Response)
    ensures listing.None? ==> r == Response(500, ErrorBody(Ascii("Failed to read uploads directory")))
    ensures listing.Some? ==> r.status == 200 && r.body.FilesBody?
                              && r.body.files == ListFiles(listing.value)
  {
    match listing
    case None => Response(500, ErrorBody(Ascii("Failed to read uploads directory")))
    case Some(files) => Response(200, FilesBody(ListFiles(files)))
  }
}
