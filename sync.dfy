/**
 * The sync script: it copies every image of the backend's uploads directory
 * that the publish directory lacks, and builds the `{filename, title}` list
 * written to `photos.json`. The filesystem is replaced by maps: the uploads
 * directory by its entries (what `fs.statSync` says of each, in the order
 * `fs.readdirSync` gave them) and the publish directory by the files it holds.
 */
module Sync {
  import opened Wrappers
  import opened Text
  import opened Sorting

  newtype Byte = x: int | 0 <= x < 0x100

  type Bytes = seq<Byte>

  /** What `fs.statSync(p)` makes of a directory entry: a regular file and
      its bytes, anything else (a directory, a socket, ...), or an entry it
      throws on (a dangling symbolic link, a permission error). */
  datatype Node = Regular(content: Bytes) | NotRegular | StatFails

  /** The backend uploads directory: absent (`fs.existsSync` is false), or
      its entries together with the order `fs.readdirSync` listed them in. */
  datatype Uploads = Missing | Present(dir: map<Str, Node>, order: seq<Str>)

  /** `order` lists every entry of `dir` once, as `readdirSync` does. */
  ghost predicate IsListing(u: Uploads) {
    u.Present? ==> (forall n :: n in u.dir <==> n in u.order) && Distinct(u.order)
  }

  function DirOf(u: Uploads): map<Str, Node> {
    if u.Present? then u.dir else map[]
  }

  /** A JSON value as `JSON.parse` returns it. */
  datatype Json =
    | JNull
    | JBool(b: bool)
    | JNumber(n: real)
    | JString(s: Str)
    | JArray(items: seq<Json>)
    | JObject(members: map<Str, Json>)

  /** The backend metadata file: absent, present but unreadable or not valid
      JSON (the `catch`), or parsed. */
  datatype MetadataFile = Absent | Unreadable | Parsed(value: Json)

  /** The metadata the run uses: the parsed file, or an empty object when the
      file is missing or cannot be read or parsed. */
  function LoadMetadata(f: MetadataFile): (j: Json)
    ensures f.Parsed? ==> j == f.value
    ensures !f.Parsed? ==> j == JObject(map[])
    ensures j.JNull? <==> f == Parsed(JNull)
  {
    match f
    case Parsed(v) => v
    case _ => JObject(map[])
  }

  /** JavaScript truthiness of a JSON value. */
  predicate Truthy(j: Json) {
    match j
    case JNull => false
    case JBool(b) => b
    case JNumber(n) => n != 0.0
    case JString(s) => s != []
    case _ => true
  }

  const Empty: Json := JString([])
  const TitleKey: Str := Ascii("title")

  /** `metadata[name]`, None standing for `undefined`, for a metadata value
      that is not `null` (on `null` the lookup throws). Arrays, strings,
      numbers and booleans have no own property named like an image file. */
  function Member(metadata: Json, name: Str): (r: Option<Json>)
    requires !metadata.JNull?
    ensures r.Some? <==> metadata.JObject? && name in metadata.members
    ensures r.Some? ==> r.value == metadata.members[name]
  {
    match metadata
    case JObject(members) => if name in members then Some(members[name]) else None
    case _ => None
  }

  /** The title of an entry from its metadata member: the member's `title`
      when the member is an object and that title is truthy, else `''`. */
  function TitleOf(m: Option<Json>): (t: Json)
    ensures t == Empty || (m.Some? && m.value.JObject? && TitleKey in m.value.members
                           && t == m.value.members[TitleKey])
    ensures Truthy(t) <==> m.Some? && m.value.JObject? && TitleKey in m.value.members
                           && Truthy(m.value.members[TitleKey])
    ensures Truthy(t) || t == Empty
  {
    match m
    case Some(JObject(members)) =>
      if TitleKey in members && Truthy(members[TitleKey]) then members[TitleKey] else Empty
    case _ => Empty
  }

  const Extensions: seq<Str> :=
    [Ascii(".jpg"), Ascii(".jpeg"), Ascii(".png"), Ascii(".gif"), Ascii(".webp"), Ascii(".heic")]

  /** The lower-cased name ends with one of the six image extensions. */
  predicate IsImageName(n: Str) {
    exists e | e in Extensions :: EndsWith(Lower(n), e)
  }

  /** The extension test ignores case: a name passes exactly when its
      lower-cased form does, so `photo.JPG` passes like `photo.jpg`. */
  lemma ImageNameIgnoresCase(n: Str)
    ensures IsImageName(n) <==> IsImageName(Lower(n))
  {
    assert Lower(Lower(n)) == Lower(n);
  }

  /** The filter over the listing: the regular files with an image name, in
      listing order, or None when `statSync` throws on some entry. */
  function Retain(dir: map<Str, Node>, order: seq<Str>): (r: Option<seq<Str>>)
    requires forall i | 0 <= i < |order| :: order[i] in dir
    ensures r.None? <==> exists i | 0 <= i < |order| :: dir[order[i]].StatFails?
    ensures r.Some? ==> forall n :: n in r.value <==> n in order && dir[n].Regular? && IsImageName(n)
    ensures r.Some? && Distinct(order) ==> Distinct(r.value)
  {
    if order == [] then Some([])
    else
      var n := order[0];
      match Retain(dir, order[1..])
      case None => None
      case Some(rest) =>
        if dir[n].StatFails? then None
        else if dir[n].Regular? && IsImageName(n) then Some([n] + rest)
        else Some(rest)
  }

  /** The list of names to publish: filtered, then `.sort()`ed, which compares
      code units; `[]` when the uploads directory is missing. */
  function Files(u: Uploads): (r: Option<seq<Str>>)
    requires IsListing(u)
    ensures r.None? <==> u.Present? && exists n | n in u.dir :: u.dir[n].StatFails?
    ensures r.Some? ==> forall n :: n in r.value <==>
                          u.Present? && n in u.dir && u.dir[n].Regular? && IsImageName(n)
    ensures r.Some? ==> forall i, j | 0 <= i < j < |r.value| :: Lt(r.value[i], r.value[j])
  {
    match u
    case Missing => Some([])
    case Present(dir, order) =>
      match Retain(dir, order)
      case None => None
      case Some(names) =>
        SortPermutes(Ascending, names);
        SortSorted(Ascending, names);
        SortDistinct(Ascending, names);
        SortMembers(Ascending, names);
        Some(Sort(Ascending, names))
  }

  lemma SortMembers(d: Direction, s: seq<Str>)
    ensures forall n :: n in Sort(d, s) <==> n in s
  {
    SortPermutes(d, s);
    forall n ensures n in Sort(d, s) <==> n in s {
      assert n in Sort(d, s) <==> n in multiset(Sort(d, s));
      assert n in s <==> n in multiset(s);
    }
  }

  predicate AllRegular(dir: map<Str, Node>, names: seq<Str>) {
    forall i | 0 <= i < |names| :: names[i] in dir && dir[names[i]].Regular?
  }

  /** Copy each name in turn from the uploads directory, only where the
      destination does not have it yet. */
  function CopyAll(dst: map<Str, Bytes>, dir: map<Str, Node>, names: seq<Str>): (r: map<Str, Bytes>)
    requires AllRegular(dir, names)
    ensures forall n | n in dst :: n in r && r[n] == dst[n]
    ensures forall n | n in r :: n in dst || n in names
  {
    if names == [] then dst
    else
      var d := CopyAll(dst, dir, names[..|names| - 1]);
      var n := names[|names| - 1];
      if n in d then d else d[n := dir[n].content]
  }

  datatype Entry = Entry(filename: Str, title: Json)

  /** The entry the loop pushes for `name`. */
  function EntryFor(metadata: Json, name: Str): (e: Entry)
    requires !metadata.JNull?
    ensures e.filename == name
    ensures HasTitle(metadata, name, e.title)
  {
    Entry(name, TitleOf(Member(metadata, name)))
  }

  function Entries(metadata: Json, names: seq<Str>): (es: seq<Entry>)
    requires names != [] ==> !metadata.JNull?
    ensures |es| == |names|
    ensures forall i | 0 <= i < |names| :: es[i].filename == names[i]
  {
    seq(|names|, i requires 0 <= i < |names| => EntryFor(metadata, names[i]))
  }

  /** Why a run stopped with an exception: `statSync` threw while filtering,
      or `metadata[name]` threw because the metadata file holds `null`. */
  datatype Failure = StatFailed | MetadataNull

  /** `Written(entries)`: the run reached the write of `photos.json`. */
  datatype Outcome = Written(entries: seq<Entry>) | Crashed(failure: Failure)

  lemma FilesRegular(u: Uploads)
    requires IsListing(u)
    ensures Files(u).Some? ==> AllRegular(DirOf(u), Files(u).value)
  {
  }

  /** The loop of `main` over the sorted names (None: the filter threw), as
      a function: the outcome and the publish directory's files afterwards. */
  function Publish(files: Option<seq<Str>>, metadata: Json, dir: map<Str, Node>,
                   dst: map<Str, Bytes>): (r: (Outcome, map<Str, Bytes>))
    requires files.Some? ==> AllRegular(dir, files.value)
    ensures r.0 == Crashed(StatFailed) <==> files.None?
    ensures r.0 == Crashed(MetadataNull) <==> files.Some? && metadata.JNull? && files.value != []
    ensures r.0.Written? ==> |r.0.entries| == |files.value|
    ensures forall n | n in dst :: n in r.1 && r.1[n] == dst[n]
  {
    match files
    case None => (Crashed(StatFailed), dst)
    case Some(names) =>
      if metadata.JNull? && names != [] then
        (Crashed(MetadataNull), CopyAll(dst, dir, names[..1]))
      else
        (Written(Entries(metadata, names)), CopyAll(dst, dir, names))
  }

  /** What `main` does, as a function of its inputs. */
  function Run(u: Uploads, f: MetadataFile, dst: map<Str, Bytes>): (r: (Outcome, map<Str, Bytes>))
    requires IsListing(u)
    ensures u.Missing? ==> r == (Written([]), dst)
    ensures r.0 == Crashed(StatFailed) <==> Files(u).None?
    ensures r.0.Written? ==> |r.0.entries| == |Files(u).value|
  {
    FilesRegular(u);
    Publish(Files(u), LoadMetadata(f), DirOf(u), dst)
  }

  /** One more name of the list: one more conditional copy. */
  lemma CopyAllStep(dst: map<Str, Bytes>, dir: map<Str, Node>, names: seq<Str>, i: nat)
    requires AllRegular(dir, names) && i < |names|
    ensures AllRegular(dir, names[..i]) && AllRegular(dir, names[..i + 1])
    ensures var d := CopyAll(dst, dir, names[..i]);
            CopyAll(dst, dir, names[..i + 1])
            == if names[i] in d then d else d[names[i] := dir[names[i]].content]
  {
    assert names[..i + 1][..i] == names[..i];
  }

  /** One more name of the list: one more entry. */
  lemma EntriesStep(metadata: Json, names: seq<Str>, i: nat)
    requires !metadata.JNull? && i < |names|
    ensures Entries(metadata, names[..i + 1])
            == Entries(metadata, names[..i]) + [EntryFor(metadata, names[i])]
  {
  }

  /** `main`, with the destination directory's files passed in and returned. */
  method SyncPhotos(u: Uploads, f: MetadataFile, dst: map<Str, Bytes>)
    returns (outcome: Outcome, published: map<Str, Bytes>)
    requires IsListing(u)
    ensures (outcome, published) == Run(u, f, dst)
  {
    var metadata := LoadMetadata(f);
    var files := Files(u);
    if files.None? {
      return Crashed(StatFailed), dst;
    }
    var names := files.value;
    var dir := DirOf(u);
    var entries: seq<Entry> := [];
    published := dst;
    FilesRegular(u);
    for i := 0 to |names|
      invariant AllRegular(dir, names[..i])
      invariant published == CopyAll(dst, dir, names[..i])
      invariant i > 0 ==> !metadata.JNull?
      invariant entries == Entries(metadata, names[..i])
    {
      var name := names[i];
      CopyAllStep(dst, dir, names, i);
      if name !in published {
        published := published[name := dir[name].content];
      }
      if metadata.JNull? {
        return Crashed(MetadataNull), published;
      }
      EntriesStep(metadata, names, i);
      entries := entries + [Entry(name, TitleOf(Member(metadata, name)))];
    }
    assert names[..|names|] == names;
    outcome := Written(entries);
  }

  /** The names the run keeps: regular files whose lower-cased name ends with
      one of the image extensions. */
  ghost predicate IsRetained(u: Uploads, n: Str) {
    u.Present? && n in u.dir && u.dir[n].Regular? && IsImageName(n)
  }

  ghost function RetainedSet(u: Uploads): set<Str> {
    set n | n in DirOf(u) && IsRetained(u, n)
  }

  lemma {:induction false} DistinctCard(s: seq<Str>)
    requires Distinct(s)
    ensures |set x | x in s| == |s|
  {
    if s != [] {
      DistinctCard(s[1..]);
      assert (set x | x in s) == {s[0]} + (set x | x in s[1..]);
      assert s[0] !in (set x | x in s[1..]);
    }
  }

  /** The published names are the retained files, without repeats. */
  lemma FilesAreRetained(u: Uploads)
    requires IsListing(u) && Files(u).Some?
    ensures RetainedSet(u) == set x | x in Files(u).value
    ensures |Files(u).value| == |RetainedSet(u)|
  {
    var names := Files(u).value;
    assert Distinct(names);
    DistinctCard(names);
  }

  /** The title the loop gives `name`: `metadata[name].title` when that is an
      object with a truthy `title`, and `''` otherwise. */
  ghost predicate HasTitle(metadata: Json, name: Str, t: Json) {
    if metadata.JObject? && name in metadata.members && metadata.members[name].JObject?
       && TitleKey in metadata.members[name].members
       && Truthy(metadata.members[name].members[TitleKey])
    then t == metadata.members[name].members[TitleKey]
    else t == Empty
  }

  /** Entries follow the names one for one, each titled from the metadata. */
  lemma EntriesTitled(metadata: Json, names: seq<Str>)
    requires names != [] ==> !metadata.JNull?
    ensures forall i | 0 <= i < |names| ::
              Entries(metadata, names)[i].filename == names[i]
              && HasTitle(metadata, names[i], Entries(metadata, names)[i].title)
  {
  }

  /** A run that writes `photos.json` lists exactly the retained files, in
      strictly ascending code-unit order, one entry per file, each titled
      from the metadata. */
  lemma RunEntries(u: Uploads, f: MetadataFile, dst: map<Str, Bytes>)
    requires IsListing(u) && Run(u, f, dst).0.Written?
    ensures var es := Run(u, f, dst).0.entries;
            && (forall n :: (exists i | 0 <= i < |es| :: es[i].filename == n) <==> IsRetained(u, n))
            && (forall i, j | 0 <= i < j < |es| :: Lt(es[i].filename, es[j].filename))
            && |es| == |RetainedSet(u)|
            && forall i | 0 <= i < |es| :: HasTitle(LoadMetadata(f), es[i].filename, es[i].title)
  {
    var names := Files(u).value;
    var metadata := LoadMetadata(f);
    assert Run(u, f, dst).0.entries == Entries(metadata, names);
    var es := Entries(metadata, names);
    EntriesTitled(metadata, names);
    FilesAreRetained(u);
    forall n ensures (exists i | 0 <= i < |es| :: es[i].filename == n) <==> IsRetained(u, n) {
      if IsRetained(u, n) {
        var i :| 0 <= i < |names| && names[i] == n;
        assert es[i].filename == n;
      }
    }
  }

  /** Absent or unreadable metadata: every entry gets the empty title. */
  lemma NoMetadataNoTitles(u: Uploads, f: MetadataFile, dst: map<Str, Bytes>)
    requires IsListing(u) && (f == Absent || f == Unreadable)
    ensures Run(u, f, dst).0 != Crashed(MetadataNull)
    ensures Run(u, f, dst).0.Written? ==>
              forall i | 0 <= i < |Run(u, f, dst).0.entries| :: Run(u, f, dst).0.entries[i].title == Empty
  {
  }

  /** A missing uploads directory: no entries and no copies. */
  lemma MissingUploadsNothingSynced(f: MetadataFile, dst: map<Str, Bytes>)
    ensures Run(Missing, f, dst) == (Written([]), dst)
  {
  }

  /** The run crashes exactly when `statSync` throws on an entry, or when the
      metadata file holds `null` and there is a file to look up. */
  lemma RunCrashes(u: Uploads, f: MetadataFile, dst: map<Str, Bytes>)
    requires IsListing(u)
    ensures Run(u, f, dst).0 == Crashed(StatFailed)
            <==> u.Present? && exists n | n in u.dir :: u.dir[n].StatFails?
    ensures Run(u, f, dst).0 == Crashed(MetadataNull)
            <==> Files(u).Some? && f == Parsed(JNull) && RetainedSet(u) != {}
  {
    if Files(u).Some? {
      FilesAreRetained(u);
    }
  }

  /** Copying only where absent: existing files are kept, and every new file
      is a listed name with the source's bytes. */
  lemma {:induction false} CopyAllSpec(dst: map<Str, Bytes>, dir: map<Str, Node>, names: seq<Str>)
    requires AllRegular(dir, names)
    ensures var d := CopyAll(dst, dir, names);
            && d.Keys == dst.Keys + (set n | n in names)
            && (forall k | k in dst :: d[k] == dst[k])
            && (forall k | k in d && k !in dst :: k in dir && dir[k].Regular? && d[k] == dir[k].content)
  {
    if names != [] {
      var p := names[..|names| - 1];
      CopyAllSpec(dst, dir, p);
      var n := names[|names| - 1];
      assert names == p + [n];
      assert (set x | x in names) == (set x | x in p) + {n};
    }
  }

  /** Copying names that are all present already changes nothing. */
  lemma {:induction false} CopyAllPresent(d: map<Str, Bytes>, dir: map<Str, Node>, names: seq<Str>)
    requires AllRegular(dir, names)
    requires forall i | 0 <= i < |names| :: names[i] in d
    ensures CopyAll(d, dir, names) == d
  {
    if names != [] {
      CopyAllPresent(d, dir, names[..|names| - 1]);
    }
  }

  /** Destination files are never overwritten and never removed, whatever
      the outcome; every file added is a retained image, copied byte for byte. */
  lemma RunNeverOverwrites(u: Uploads, f: MetadataFile, dst: map<Str, Bytes>)
    requires IsListing(u)
    ensures var p := Run(u, f, dst).1;
            && (forall k | k in dst :: k in p && p[k] == dst[k])
            && (forall k | k in p && k !in dst :: IsRetained(u, k) && p[k] == u.dir[k].content)
  {
    if Files(u).Some? {
      var names := Files(u).value;
      FilesRegular(u);
      CopyAllSpec(dst, DirOf(u), names);
      if names != [] {
        CopyAllSpec(dst, DirOf(u), names[..1]);
      }
    }
  }

  /** After a run that writes `photos.json`, the destination holds every
      retained file, and nothing else was added. */
  lemma RunPublishesEveryImage(u: Uploads, f: MetadataFile, dst: map<Str, Bytes>)
    requires IsListing(u) && Run(u, f, dst).0.Written?
    ensures Run(u, f, dst).1.Keys == dst.Keys + RetainedSet(u)
  {
    var names := Files(u).value;
    FilesRegular(u);
    CopyAllSpec(dst, DirOf(u), names);
    FilesAreRetained(u);
  }

  lemma PublishIdempotent(files: Option<seq<Str>>, metadata: Json, dir: map<Str, Node>,
                          dst: map<Str, Bytes>)
    requires files.Some? ==> AllRegular(dir, files.value)
    ensures Publish(files, metadata, dir, Publish(files, metadata, dir, dst).1)
            == Publish(files, metadata, dir, dst)
  {
    var p := Publish(files, metadata, dir, dst).1;
    if files.Some? {
      var names := files.value;
      if metadata.JNull? && names != [] {
        CopyAllSpec(dst, dir, names[..1]);
        CopyAllPresent(p, dir, names[..1]);
      } else {
        CopyAllSpec(dst, dir, names);
        CopyAllPresent(p, dir, names);
      }
    }
  }

  /** A second run on the run's own result writes the same entries and
      copies nothing. */
  lemma RunIdempotent(u: Uploads, f: MetadataFile, dst: map<Str, Bytes>)
    requires IsListing(u)
    ensures Run(u, f, Run(u, f, dst).1) == Run(u, f, dst)
  {
    FilesRegular(u);
    PublishIdempotent(Files(u), LoadMetadata(f), DirOf(u), dst);
  }

  lemma {:induction false} DistinctCount(s: seq<Str>, x: Str)
    requires Distinct(s)
    ensures multiset(s)[x] == if x in s then 1 else 0
  {
    if s != [] {
      DistinctCount(s[1..], x);
      assert s == [s[0]] + s[1..];
    }
  }

  /** The published list does not depend on the order `readdirSync` lists
      the uploads directory in. */
  lemma FilesIgnoreListingOrder(dir: map<Str, Node>, o1: seq<Str>, o2: seq<Str>)
    requires IsListing(Present(dir, o1)) && IsListing(Present(dir, o2))
    ensures Files(Present(dir, o1)) == Files(Present(dir, o2))
  {
    var r1, r2 := Files(Present(dir, o1)), Files(Present(dir, o2));
    if r1.Some? {
      var a, b := r1.value, r2.value;
      forall x ensures multiset(a)[x] == multiset(b)[x] {
        DistinctCount(a, x);
        DistinctCount(b, x);
      }
      assert multiset(a) == multiset(b);
      SortedUnique(Ascending, a, b);
    }
  }

  /** Neither does anything else the run does. */
  lemma RunIgnoresListingOrder(dir: map<Str, Node>, o1: seq<Str>, o2: seq<Str>,
                               f: MetadataFile, dst: map<Str, Bytes>)
    requires IsListing(Present(dir, o1)) && IsListing(Present(dir, o2))
    ensures Run(Present(dir, o1), f, dst) == Run(Present(dir, o2), f, dst)
  {
    FilesIgnoreListingOrder(dir, o1, o2);
  }

  /** "notes.txt" is not an image name, so it is never published. */
  lemma NotesAreNotImages(n: Str)
    requires n == Ascii("notes.txt")
    ensures !IsImageName(n)
  {
    assert n == [110, 111, 116, 101, 115, 46, 116, 120, 116];
    assert Lower(n) == n;
    forall e | e in Extensions ensures !EndsWith(n, e) {
      assert e[|e| - 1] != 116;
    }
  }

  /** An all-lower-case name passes the extension test when it ends with
      the extension at index `k`. */
  lemma LowerImageName(n: Str, k: nat)
    requires k < |Extensions| && Lower(n) == n && EndsWith(n, Extensions[k])
    ensures IsImageName(n)
  {
    assert Extensions[k] in Extensions;
  }

  lemma ExampleJpg(a: Str)
    requires a == Ascii("a.jpg")
    ensures IsImageName(a) && a[0] == 97
  {
    assert a == [97, 46, 106, 112, 103];
    assert Extensions[0] == [46, 106, 112, 103];
    LowerImageName(a, 0);
  }

  lemma ExamplePng(b: Str)
    requires b == Ascii("b.png")
    ensures IsImageName(b) && b[0] == 98
  {
    assert b == [98, 46, 112, 110, 103];
    assert Extensions[2] == [46, 112, 110, 103];
    LowerImageName(b, 2);
  }

  lemma ExampleGif(c: Str)
    requires c == Ascii("c.gif")
    ensures IsImageName(c) && c[0] == 99
  {
    assert c == [99, 46, 103, 105, 102];
    assert Extensions[3] == [46, 103, 105, 102];
    LowerImageName(c, 3);
  }

  lemma ExampleNames(a: Str, b: Str, c: Str)
    requires a == Ascii("a.jpg") && b == Ascii("b.png") && c == Ascii("c.gif")
    ensures IsImageName(a) && IsImageName(b) && IsImageName(c)
    ensures a != [] && b != [] && c != [] && a[0] < b[0] < c[0]
  {
    ExampleJpg(a);
    ExamplePng(b);
    ExampleGif(c);
  }

  /** The published list is the one strictly ascending list of the
      retained names. */
  lemma FilesDetermined(u: Uploads, expected: seq<Str>)
    requires IsListing(u) && Files(u).Some?
    requires forall i, j | 0 <= i < j < |expected| :: Lt(expected[i], expected[j])
    requires forall n :: n in expected <==> IsRetained(u, n)
    ensures Files(u).value == expected
  {
    var r := Files(u).value;
    forall x ensures multiset(r)[x] == multiset(expected)[x] {
      DistinctCount(r, x);
      DistinctCount(expected, x);
    }
    SortedUnique(Ascending, r, expected);
  }

  /** Three image files in a directory, listed in any order, are published
      in code-unit order. */
  lemma ThreeImagesAscending(dir: map<Str, Node>, order: seq<Str>, a: Str, b: Str, c: Str)
    requires IsImageName(a) && IsImageName(b) && IsImageName(c) && Lt(a, b) && Lt(b, c)
    requires dir.Keys == {a, b, c} && dir[a].Regular? && dir[b].Regular? && dir[c].Regular?
    requires IsListing(Present(dir, order))
    ensures Files(Present(dir, order)) == Some([a, b, c])
  {
    var u := Present(dir, order);
    LeTransitive(a, b, c);
    if a == c {
      LeAntisymmetric(a, b);
    }
    assert Lt(a, c);
    FilesDetermined(u, [a, b, c]);
  }

  /** A directory of "b.png", "a.jpg" and "c.gif", listed in that order,
      is published as "a.jpg", "b.png", "c.gif". */
  lemma AscendingExample(dir: map<Str, Node>, a: Str, b: Str, c: Str)
    requires a == Ascii("a.jpg") && b == Ascii("b.png") && c == Ascii("c.gif")
    requires dir.Keys == {a, b, c} && dir[a].Regular? && dir[b].Regular? && dir[c].Regular?
    ensures IsListing(Present(dir, [b, a, c]))
            && Files(Present(dir, [b, a, c])) == Some([a, b, c])
  {
    ExampleNames(a, b, c);
    assert Lt(a, b) && Lt(b, c);
    assert IsListing(Present(dir, [b, a, c]));
    ThreeImagesAscending(dir, [b, a, c], a, b, c);
  }
}
