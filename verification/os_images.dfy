/** The cached-image endpoints: the listing of the downloaded `.zip` images,
    newest first, and the guarded deletion of one of them. The download
    directory is an immutable value; deleting yields the directory after the
    removal. */
module OsImages {

  import opened Options
  import opened Strings
  import opened Seqs

  // ---------------------------------------------------------------------------
  // The download directory

  /** What a path leads to once symbolic links are followed. A dangling link
      (or a link loop) leads nowhere: `exists()` and `is_file()` are false. */
  datatype Kind = RegularFile | Directory | Special | Dangling

  /** One entry of the download directory: its name, what it leads to, the
      size and modification time of its target (the time as an integer key),
      and the string of its resolved path. */
  datatype Entry = Entry(name: string, kind: Kind, size: nat, mtime: int, resolved: string)

  /** The download directory: absent, or present with the string of its own
      resolved path and its entries in the order `iterdir` yields them. */
  datatype CacheDir = Missing | Present(root: string, entries: seq<Entry>)

  /** What the file system guarantees of a directory listing: names are
      non-empty, unique, free of `/`, and never `.` or `..`. */
  predicate WellFormed(dir: CacheDir) {
    dir.Present? ==>
      && (forall k :: 0 <= k < |dir.entries| ==> PathSegment(dir.entries[k].name)
                                                 && dir.entries[k].name != "." && dir.entries[k].name != "..")
      && UniqueNames(dir.entries)
  }

  /** Names are unique in `entries`. */
  predicate UniqueNames(entries: seq<Entry>) {
    forall a, b :: 0 <= a < b < |entries| ==> entries[a].name != entries[b].name
  }

  /** A name the router can hand over as `{filename}`: one non-empty path
      segment. */
  predicate PathSegment(name: string) {
    |name| > 0 && '/' !in name
  }

  // ---------------------------------------------------------------------------
  // File name suffix

  /** `str.rfind`: the index of the last `c`, or -1 when there is none. */
  function RFind(s: string, c: char): (i: int)
    ensures -1 <= i < |s|
    ensures i >= 0 ==> s[i] == c
    ensures forall k :: i < k < |s| ==> s[k] != c
    decreases |s|
  {
    if s == [] then -1
    else if s[|s| - 1] == c then |s| - 1
    else RFind(s[..|s| - 1], c)
  }

  /** A name without a suffix: empty, ending in a dot, or with no dot
      between its first and last characters. */
  predicate NoSuffixDot(name: string) {
    || |name| == 0
    || name[|name| - 1] == '.'
    || forall k :: 0 < k < |name| - 1 ==> name[k] != '.'
  }

  /** `PurePath.suffix` of a name: from its last dot on, unless that dot is
      the first or the last character, in which case there is none. */
  function Suffix(name: string): (x: string)
    ensures x != "" ==> 2 <= |x| < |name| && x[0] == '.' && '.' !in x[1..] && EndsWith(name, x)
    ensures x == "" <==> NoSuffixDot(name)
  {
    var i := RFind(name, '.');
    if 0 < i < |name| - 1 then name[i..] else ""
  }

  /** A name has suffix `.zip` exactly when it ends in `.zip` after at least
      one other character; `.zip` alone has no suffix. */
  lemma SuffixZip(name: string)
    ensures Suffix(name) == ".zip" <==> |name| > 4 && EndsWith(name, ".zip")
  {
    if |name| > 4 && EndsWith(name, ".zip") {
      var n := |name|;
      assert name[n - 4..] == ".zip";
      assert name[n - 4] == '.';
      assert forall k :: n - 4 < k < n ==> name[k] == name[n - 4..][k - (n - 4)];
    }
  }

  // ---------------------------------------------------------------------------
  // Listing

  /** One item of the listing response. */
  datatype ImageInfo = ImageInfo(filename: string, size: nat, modified: int)

  /** An entry the listing shows: a regular file (after following links)
      whose suffix is exactly `.zip`. */
  predicate Listed(e: Entry) {
    e.kind == RegularFile && Suffix(e.name) == ".zip"
  }

  function InfoOf(e: Entry): Option<ImageInfo> {
    if Listed(e) then Some(ImageInfo(e.name, e.size, e.mtime)) else None
  }

  /** The loop over `iterdir`: the listed entries, in directory order. */
  function Images(entries: seq<Entry>): seq<ImageInfo> {
    FilterMap(InfoOf, entries)
  }

  /** Newest first: modification times never increase along the sequence. */
  predicate NewestFirst(s: seq<ImageInfo>) {
    forall i, j :: 0 <= i < j < |s| ==> s[i].modified >= s[j].modified
  }

  /** Insert `x`, which came before every element of `s` in the original
      order, ahead of the first element that is not strictly newer. */
  function Insert(x: ImageInfo, s: seq<ImageInfo>): seq<ImageInfo>
    decreases |s|
  {
    if s == [] then [x]
    else if s[0].modified > x.modified then [s[0]] + Insert(x, s[1..])
    else [x] + s
  }

  /** Inserting adds `x` and loses nothing. */
  lemma {:induction false} InsertPermutes(x: ImageInfo, s: seq<ImageInfo>)
    ensures multiset(Insert(x, s)) == multiset(s) + multiset{x}
    decreases |s|
  {
    if s != [] && s[0].modified > x.modified {
      InsertPermutes(x, s[1..]);
      assert s == [s[0]] + s[1..];
    }
  }

  /** Every element of the result is `x` or comes from `s`. */
  lemma {:induction false} InsertFrom(x: ImageInfo, s: seq<ImageInfo>)
    ensures forall k :: 0 <= k < |Insert(x, s)| ==> Insert(x, s)[k] == x || Insert(x, s)[k] in s
    decreases |s|
  {
    if s != [] && s[0].modified > x.modified {
      InsertFrom(x, s[1..]);
      assert forall y :: y in s[1..] ==> y in s;
    }
  }

  /** Inserting into a newest-first sequence keeps it newest first. */
  lemma {:induction false} InsertNewestFirst(x: ImageInfo, s: seq<ImageInfo>)
    requires NewestFirst(s)
    ensures NewestFirst(Insert(x, s))
    decreases |s|
  {
    if s != [] && s[0].modified > x.modified {
      var rest := Insert(x, s[1..]);
      InsertNewestFirst(x, s[1..]);
      InsertFrom(x, s[1..]);
      forall k | 0 <= k < |rest|
        ensures s[0].modified >= rest[k].modified
      {
        if rest[k] != x {
          var j :| 0 <= j < |s[1..]| && s[1..][j] == rest[k];
          assert s[j + 1] == rest[k];
        }
      }
      assert Insert(x, s) == [s[0]] + rest;
    }
  }

  /** `images.sort(key=lambda x: x['modified'], reverse=True)`: a stable
      sort, newest first, in which images with equal times keep their
      directory order. */
  function SortNewestFirst(s: seq<ImageInfo>): (r: seq<ImageInfo>)
    ensures multiset(r) == multiset(s)
    ensures NewestFirst(r)
    decreases |s|
  {
    if s == [] then []
    else
      assert s == [s[0]] + s[1..];
      InsertNewestFirst(s[0], SortNewestFirst(s[1..]));
      InsertPermutes(s[0], SortNewestFirst(s[1..]));
      Insert(s[0], SortNewestFirst(s[1..]))
  }

  /** `list_os_images`: no images when the directory is missing; otherwise
      the listed entries, newest first. */
  function ListOsImages(dir: CacheDir): (r: seq<ImageInfo>)
    ensures dir.Missing? ==> r == []
    ensures NewestFirst(r)
    ensures dir.Present? ==> multiset(r) == multiset(Images(dir.entries))
  {
    match dir
    case Missing => []
    case Present(_, entries) => SortNewestFirst(Images(entries))
  }

  /** An image is listed exactly when the directory holds a regular `.zip`
      file with that name, size and time. */
  lemma ListingMembers(dir: CacheDir, info: ImageInfo)
    ensures info in ListOsImages(dir)
            <==> && dir.Present?
                 && exists e :: e in dir.entries && e.kind == RegularFile
                                && |e.name| > 4 && EndsWith(e.name, ".zip")
                                && info == ImageInfo(e.name, e.size, e.mtime)
  {
    if dir.Present? {
      var images := Images(dir.entries);
      assert info in ListOsImages(dir) <==> info in multiset(images);
      if info in images {
        FilterMapSound(InfoOf, dir.entries, info);
        var i :| 0 <= i < |dir.entries| && InfoOf(dir.entries[i]) == Some(info);
        SuffixZip(dir.entries[i].name);
        assert dir.entries[i] in dir.entries;
      }
      if exists e :: e in dir.entries && e.kind == RegularFile && |e.name| > 4 && EndsWith(e.name, ".zip")
                     && info == ImageInfo(e.name, e.size, e.mtime) {
        var e :| e in dir.entries && e.kind == RegularFile && |e.name| > 4 && EndsWith(e.name, ".zip")
                 && info == ImageInfo(e.name, e.size, e.mtime);
        SuffixZip(e.name);
        var i :| 0 <= i < |dir.entries| && dir.entries[i] == e;
        FilterMapComplete(InfoOf, dir.entries, i);
      }
    }
  }

  // ---------------------------------------------------------------------------
  // Stability

  /** The images of `s` with time `m`, in order. */
  function SameTime(s: seq<ImageInfo>, m: int): seq<ImageInfo>
    decreases |s|
  {
    if s == [] then [] else (if s[0].modified == m then [s[0]] else []) + SameTime(s[1..], m)
  }

  lemma SameTimeCons(x: ImageInfo, s: seq<ImageInfo>, m: int)
    ensures SameTime([x] + s, m) == (if x.modified == m then [x] else []) + SameTime(s, m)
  {
    assert ([x] + s)[1..] == s;
  }

  /** Inserting puts `x` ahead of every image of its own time. */
  lemma {:induction false} InsertSameTime(x: ImageInfo, s: seq<ImageInfo>, m: int)
    requires NewestFirst(s)
    ensures SameTime(Insert(x, s), m) == (if x.modified == m then [x] else []) + SameTime(s, m)
    decreases |s|
  {
    if s == [] {
      SameTimeCons(x, [], m);
    } else if s[0].modified > x.modified {
      NewestFirstTail(s);
      InsertSameTime(x, s[1..], m);
      InsertSkipSameTime(x, s, m);
    } else {
      SameTimeCons(x, s, m);
    }
  }

  lemma NewestFirstTail(s: seq<ImageInfo>)
    requires s != [] && NewestFirst(s)
    ensures NewestFirst(s[1..])
  {
    assert forall i :: 0 <= i < |s| - 1 ==> s[1..][i] == s[i + 1];
  }

  /** Passing over a strictly newer image leaves the images of each time in
      place. */
  lemma InsertSkipSameTime(x: ImageInfo, s: seq<ImageInfo>, m: int)
    requires s != [] && s[0].modified > x.modified
    requires SameTime(Insert(x, s[1..]), m) == (if x.modified == m then [x] else []) + SameTime(s[1..], m)
    ensures SameTime(Insert(x, s), m) == (if x.modified == m then [x] else []) + SameTime(s, m)
  {
    var a, t := s[0], s[1..];
    assert Insert(x, s) == [a] + Insert(x, t);
    assert s == [a] + t;
    SkipStep(x, a, t, Insert(x, t), m);
  }

  /** An image newer than `x` in front of both sides keeps `x` ahead of the
      images of its time. */
  lemma SkipStep(x: ImageInfo, a: ImageInfo, t: seq<ImageInfo>, it: seq<ImageInfo>, m: int)
    requires a.modified > x.modified
    requires SameTime(it, m) == (if x.modified == m then [x] else []) + SameTime(t, m)
    ensures SameTime([a] + it, m) == (if x.modified == m then [x] else []) + SameTime([a] + t, m)
  {
    SameTimeCons(a, it, m);
    SameTimeCons(a, t, m);
    if x.modified == m {
      assert SameTime([a] + it, m) == SameTime(it, m);
      assert SameTime([a] + t, m) == SameTime(t, m);
    } else {
      assert SameTime(it, m) == SameTime(t, m);
    }
  }

  /** The sort is stable: for every time, the images of that time appear in
      the order the directory yielded them. */
  lemma {:induction false} SortStable(s: seq<ImageInfo>, m: int)
    ensures SameTime(SortNewestFirst(s), m) == SameTime(s, m)
    decreases |s|
  {
    if s != [] {
      SortStable(s[1..], m);
      InsertSameTime(s[0], SortNewestFirst(s[1..]), m);
      SameTimeCons(s[0], s[1..], m);
      assert s == [s[0]] + s[1..];
    }
  }

  lemma SameTimeHead(s: seq<ImageInfo>)
    ensures s != [] ==> SameTime(s, s[0].modified) != []
  {
  }

  /** An image of time `m` in `s` shows up in `SameTime(s, m)`. */
  lemma {:induction false} SameTimeWitness(s: seq<ImageInfo>, m: int) returns (k: nat)
    requires SameTime(s, m) != []
    ensures k < |s| && s[k].modified == m
    decreases |s|
  {
    if s[0].modified == m {
      k := 0;
    } else {
      var k' := SameTimeWitness(s[1..], m);
      k := k' + 1;
    }
  }

  /** `r` holds the images of `s` of every time in the same order. */
  ghost predicate SameOrderPerTime(r: seq<ImageInfo>, s: seq<ImageInfo>) {
    forall m :: SameTime(r, m) == SameTime(s, m)
  }

  /** Two newest-first sequences with the same images of every time, in the
      same order, are equal. */
  lemma {:induction false} NewestFirstUnique(r1: seq<ImageInfo>, r2: seq<ImageInfo>)
    requires NewestFirst(r1) && NewestFirst(r2) && SameOrderPerTime(r1, r2)
    ensures r1 == r2
    decreases |r1|
  {
    SameTimeHead(r1);
    SameTimeHead(r2);
    if r1 != [] && r2 != [] {
      HeadsAgree(r1, r2);
      TailsAgree(r1, r2);
      NewestFirstTail(r1);
      NewestFirstTail(r2);
      NewestFirstUnique(r1[1..], r2[1..]);
      assert r1 == [r1[0]] + r1[1..] && r2 == [r2[0]] + r2[1..];
    }
  }

  /** The newest image comes first in both. */
  lemma HeadsAgree(r1: seq<ImageInfo>, r2: seq<ImageInfo>)
    requires r1 != [] && r2 != [] && NewestFirst(r1) && NewestFirst(r2) && SameOrderPerTime(r1, r2)
    ensures r1[0] == r2[0]
  {
    var a, b := r1[0], r2[0];
    SameTimeHead(r1);
    SameTimeHead(r2);
    assert SameTime(r1, a.modified) == SameTime(r2, a.modified);
    assert SameTime(r1, b.modified) == SameTime(r2, b.modified);
    var kb := SameTimeWitness(r2, a.modified);
    var ka := SameTimeWitness(r1, b.modified);
    assert kb > 0 ==> r2[0].modified >= r2[kb].modified;
    assert ka > 0 ==> r1[0].modified >= r1[ka].modified;
    assert a.modified == b.modified;
    SameTimeCons(a, r1[1..], a.modified);
    SameTimeCons(b, r2[1..], a.modified);
    assert SameTime(r1, a.modified)[0] == a;
    assert SameTime(r2, a.modified)[0] == b;
    assert r1 == [a] + r1[1..] && r2 == [b] + r2[1..];
  }

  /** Equal heads leave the tails with the same images per time. */
  lemma TailsAgree(r1: seq<ImageInfo>, r2: seq<ImageInfo>)
    requires r1 != [] && r2 != [] && r1[0] == r2[0] && SameOrderPerTime(r1, r2)
    ensures SameOrderPerTime(r1[1..], r2[1..])
  {
    var a := r1[0];
    forall m
      ensures SameTime(r1[1..], m) == SameTime(r2[1..], m)
    {
      SameTimeCons(a, r1[1..], m);
      SameTimeCons(a, r2[1..], m);
      assert r1 == [a] + r1[1..] && r2 == [a] + r2[1..];
      var lead := if a.modified == m then [a] else [];
      assert lead + SameTime(r1[1..], m) == lead + SameTime(r2[1..], m);
      assert SameTime(r1[1..], m) == (lead + SameTime(r1[1..], m))[|lead|..];
      assert SameTime(r2[1..], m) == (lead + SameTime(r2[1..], m))[|lead|..];
    }
  }

  /** The listing is the one newest-first arrangement of the listed entries
      that keeps directory order among images of equal time. */
  lemma ListingCharacterized(root: string, entries: seq<Entry>, r: seq<ImageInfo>)
    ensures r == ListOsImages(Present(root, entries))
            <==> NewestFirst(r) && SameOrderPerTime(r, Images(entries))
  {
    var listing := ListOsImages(Present(root, entries));
    assert listing == SortNewestFirst(Images(entries));
    forall m
      ensures SameTime(listing, m) == SameTime(Images(entries), m)
    {
      SortStable(Images(entries), m);
    }
    if NewestFirst(r) && SameOrderPerTime(r, Images(entries)) {
      NewestFirstUnique(r, listing);
    }
  }

  // ---------------------------------------------------------------------------
  // Deletion

  /** What `DOWNLOAD_DIR / filename` leads to. Path joining drops a `.`
      segment, so `.` names the directory itself. A `..` segment is kept, so
      `..` leads somewhere only through the directory: to its parent, a
      directory, when the directory exists, and nowhere when it is missing. */
  datatype Node = Node(kind: Kind, resolved: string)

  const ParentDir: string := "/tmp"

  function Lookup(dir: CacheDir, filename: string): (r: Option<Node>)
    ensures r.Some? && filename != "." && filename != ".." ==>
              dir.Present? && exists e :: e in dir.entries && e.name == filename
                                          && r.value == Node(e.kind, e.resolved)
    ensures r.None? && dir.Present? ==> filename != "." && filename != ".." && forall e :: e in dir.entries ==> e.name != filename
    ensures filename == ".." ==> r == if dir.Present? then Some(Node(Directory, ParentDir)) else None
    ensures filename == "." ==> r == if dir.Present? then Some(Node(Directory, dir.root)) else None
    decreases if dir.Present? then |dir.entries| else 0
  {
    match dir
      case Missing => None
      case Present(root, entries) =>
        if filename == ".." then Some(Node(Directory, ParentDir))
        else if filename == "." then Some(Node(Directory, root))
        else if entries == [] then None
        else if entries[0].name == filename then Some(Node(entries[0].kind, entries[0].resolved))
        else
          var r := Lookup(Present(root, entries[1..]), filename);
          assert entries == [entries[0]] + entries[1..];
          r
  }

  /** How `os.remove` turns out. */
  datatype RemoveOutcome = RemoveOk | RemoveRaised(message: string)

  /** The reply of the delete endpoint: success, or the HTTP error raised. */
  datatype DeleteReply = Deleted(message: string) | Rejected(status: nat, detail: string)

  datatype DeleteOutcome = DeleteOutcome(reply: DeleteReply, dir: CacheDir)

  /** The entries other than the one named `filename`, in order. */
  function Without(entries: seq<Entry>, filename: string): seq<Entry>
    decreases |entries|
  {
    if entries == [] then []
    else
      var rest := Without(entries[1..], filename);
      if entries[0].name == filename then rest else [entries[0]] + rest
  }

  /** `delete_os_image`: the checks run in order — missing (404), not a
      file (400), wrong suffix (400), resolved path not starting with the
      resolved directory (400) — and only then is the file removed. An
      exception from the removal becomes a 500 carrying its message. */
  function DeleteOsImage(dir: CacheDir, filename: string, remove: RemoveOutcome): (r: DeleteOutcome)
    requires PathSegment(filename)
    ensures r.reply.Rejected? ==> r.dir == dir
    ensures r.reply.Deleted? ==> && r.reply.message == "Deleted " + filename
                                 && dir.Present? && r.dir == Present(dir.root, Without(dir.entries, filename))
  {
    match Lookup(dir, filename)
    case None => DeleteOutcome(Rejected(404, "File not found"), dir)
    case Some(node) =>
      if node.kind == Dangling then DeleteOutcome(Rejected(404, "File not found"), dir)
      else if node.kind != RegularFile then DeleteOutcome(Rejected(400, "Not a file"), dir)
      else if Suffix(filename) != ".zip" then DeleteOutcome(Rejected(400, "Invalid file type"), dir)
      else if !StartsWith(node.resolved, dir.root) then DeleteOutcome(Rejected(400, "Invalid file path"), dir)
      else
        match remove
        case RemoveRaised(m) => DeleteOutcome(Rejected(500, m), dir)
        case RemoveOk => DeleteOutcome(Deleted("Deleted " + filename), Present(dir.root, Without(dir.entries, filename)))
  }

  // ---------------------------------------------------------------------------
  // Properties of deletion

  /** In a well-formed directory, a name finds its own entry, and nothing
      when no entry has it. */
  lemma LookupCases(dir: CacheDir, filename: string)
    requires WellFormed(dir)
    ensures dir.Present? ==> forall e :: e in dir.entries && e.name == filename
                                         ==> Lookup(dir, filename) == Some(Node(e.kind, e.resolved))
    ensures filename != "." && filename != ".." && (dir.Missing? || forall e :: e in dir.entries ==> e.name != filename)
            ==> Lookup(dir, filename).None?
  {
    if dir.Present? {
      forall e | e in dir.entries && e.name == filename
        ensures Lookup(dir, filename) == Some(Node(e.kind, e.resolved))
      {
        var i :| 0 <= i < |dir.entries| && dir.entries[i] == e;
        var r := Lookup(dir, filename);
        var f :| f in dir.entries && f.name == filename && r.value == Node(f.kind, f.resolved);
        var j :| 0 <= j < |dir.entries| && dir.entries[j] == f;
        assert i == j;
      }
    }
  }

  /** A regular file named `filename`, with suffix `.zip`, whose resolved path
      starts with the resolved directory: what the checks let through. */
  predicate Deletable(dir: CacheDir, filename: string) {
    && dir.Present? && |filename| > 4 && EndsWith(filename, ".zip")
    && exists e :: e in dir.entries && e.name == filename && e.kind == RegularFile
                   && StartsWith(e.resolved, dir.root)
  }

  /** The 404: the name leads nowhere — the directory is missing (whatever
      the name, `.` and `..` included), no such entry, or a dangling link. */
  lemma DeleteNotFound(dir: CacheDir, filename: string, remove: RemoveOutcome)
    requires WellFormed(dir) && PathSegment(filename)
    ensures DeleteOsImage(dir, filename, remove).reply == Rejected(404, "File not found")
            <==> || dir.Missing?
                 || (filename != "." && filename != ".." && forall e :: e in dir.entries && e.name == filename
                                                                        ==> e.kind == Dangling)
  {
    LookupCases(dir, filename);
  }

  /** The first 400: the name leads to a directory or a special file; `.`
      and `..` do so only when the directory exists. */
  lemma DeleteNotAFile(dir: CacheDir, filename: string, remove: RemoveOutcome)
    requires WellFormed(dir) && PathSegment(filename)
    ensures DeleteOsImage(dir, filename, remove).reply == Rejected(400, "Not a file")
            <==> && dir.Present?
                 && (|| filename == "." || filename == ".."
                     || exists e :: e in dir.entries && e.name == filename && (e.kind == Directory || e.kind == Special))
  {
    LookupCases(dir, filename);
  }

  /** The second 400: a regular file whose suffix is not `.zip`. */
  lemma DeleteWrongType(dir: CacheDir, filename: string, remove: RemoveOutcome)
    requires WellFormed(dir) && PathSegment(filename)
    ensures DeleteOsImage(dir, filename, remove).reply == Rejected(400, "Invalid file type")
            <==> && dir.Present? && !(|filename| > 4 && EndsWith(filename, ".zip"))
                 && exists e :: e in dir.entries && e.name == filename && e.kind == RegularFile
  {
    LookupCases(dir, filename);
    SuffixZip(filename);
  }

  /** The third 400: a regular `.zip` file whose resolved path does not start
      with the resolved directory. */
  lemma DeleteOutside(dir: CacheDir, filename: string, remove: RemoveOutcome)
    requires WellFormed(dir) && PathSegment(filename)
    ensures DeleteOsImage(dir, filename, remove).reply == Rejected(400, "Invalid file path")
            <==> && dir.Present? && |filename| > 4 && EndsWith(filename, ".zip")
                 && exists e :: e in dir.entries && e.name == filename && e.kind == RegularFile
                                && !StartsWith(e.resolved, dir.root)
  {
    LookupCases(dir, filename);
    SuffixZip(filename);
  }

  /** Past the checks, the removal decides: success, or a 500 carrying the
      exception's message. Before the checks pass nothing is removed. */
  lemma DeleteAccepted(dir: CacheDir, filename: string, remove: RemoveOutcome)
    requires WellFormed(dir) && PathSegment(filename)
    ensures var r := DeleteOsImage(dir, filename, remove);
            && (Deletable(dir, filename) && remove.RemoveOk? <==> r.reply.Deleted?)
            && (Deletable(dir, filename) && remove.RemoveRaised? <==> r.reply.Rejected? && r.reply.status == 500)
            && (r.reply.Rejected? && r.reply.status == 500 ==> remove == RemoveRaised(r.reply.detail))
            && (!Deletable(dir, filename) ==> r.reply.Rejected? && r.reply.status in {400, 404})
  {
    LookupCases(dir, filename);
    SuffixZip(filename);
  }

  lemma UniqueTail(entries: seq<Entry>)
    requires entries != [] && UniqueNames(entries)
    ensures UniqueNames(entries[1..])
    ensures forall k :: 0 <= k < |entries| - 1 ==> entries[1..][k].name != entries[0].name
  {
    assert forall k :: 0 <= k < |entries| - 1 ==> entries[1..][k] == entries[k + 1];
  }

  /** Removing the entry named `filename` from a listing with unique names
      cuts out exactly that entry. */
  lemma {:induction false} WithoutOne(entries: seq<Entry>, filename: string, i: nat)
    requires i < |entries| && entries[i].name == filename && UniqueNames(entries)
    ensures Without(entries, filename) == entries[..i] + entries[i + 1..]
    decreases |entries|
  {
    UniqueTail(entries);
    if i == 0 {
      WithoutNone(entries[1..], filename);
    } else {
      assert entries[1..][i - 1] == entries[i];
      WithoutOne(entries[1..], filename, i - 1);
      WithoutKeepsHead(entries, filename, i);
    }
  }

  lemma WithoutKeepsHead(entries: seq<Entry>, filename: string, i: nat)
    requires 0 < i < |entries| && entries[0].name != filename
    requires Without(entries[1..], filename) == entries[1..][..i - 1] + entries[1..][i..]
    ensures Without(entries, filename) == entries[..i] + entries[i + 1..]
  {
    assert entries[..i] == [entries[0]] + entries[1..][..i - 1];
    assert entries[i + 1..] == entries[1..][i..];
  }

  lemma {:induction false} WithoutNone(entries: seq<Entry>, filename: string)
    requires forall k :: 0 <= k < |entries| ==> entries[k].name != filename
    ensures Without(entries, filename) == entries
    decreases |entries|
  {
    if entries != [] {
      assert forall k :: 0 <= k < |entries| - 1 ==> entries[1..][k] == entries[k + 1];
      WithoutNone(entries[1..], filename);
      assert entries == [entries[0]] + entries[1..];
    }
  }

  /** A successful delete removes exactly the named entry: every other entry
      stays, in order, and the directory keeps its resolved path. */
  lemma DeleteRemovesOne(dir: CacheDir, filename: string, remove: RemoveOutcome)
    requires WellFormed(dir) && PathSegment(filename)
    requires DeleteOsImage(dir, filename, remove).reply.Deleted?
    ensures var after := DeleteOsImage(dir, filename, remove).dir;
            && after.Present? && after.root == dir.root
            && exists i :: 0 <= i < |dir.entries| && dir.entries[i].name == filename
                           && after.entries == dir.entries[..i] + dir.entries[i + 1..]
  {
    DeleteAccepted(dir, filename, remove);
    var e :| e in dir.entries && e.name == filename && e.kind == RegularFile && StartsWith(e.resolved, dir.root);
    var i :| 0 <= i < |dir.entries| && dir.entries[i] == e;
    WithoutOne(dir.entries, filename, i);
  }

  /** Deleting keeps the directory well formed. */
  lemma DeleteKeepsWellFormed(dir: CacheDir, filename: string, remove: RemoveOutcome)
    requires WellFormed(dir) && PathSegment(filename)
    ensures WellFormed(DeleteOsImage(dir, filename, remove).dir)
  {
    var r := DeleteOsImage(dir, filename, remove);
    if r.reply.Deleted? {
      DeleteRemovesOne(dir, filename, remove);
      var i :| 0 <= i < |dir.entries| && dir.entries[i].name == filename
               && r.dir.entries == dir.entries[..i] + dir.entries[i + 1..];
      CutKeepsWellFormed(dir.root, dir.entries, i);
    }
  }

  /** Cutting one entry out keeps names valid and unique. */
  lemma CutKeepsWellFormed(root: string, es: seq<Entry>, i: nat)
    requires i < |es| && WellFormed(Present(root, es))
    ensures WellFormed(Present(root, es[..i] + es[i + 1..]))
  {
    var after := es[..i] + es[i + 1..];
    assert forall k :: 0 <= k < |after| ==> after[k] == es[Skip(k, i)];
  }

  /** The index in the full listing of the `k`-th entry left after cutting
      out entry `i`. */
  function Skip(k: nat, i: nat): nat {
    if k < i then k else k + 1
  }

  /** The containment check is a plain string prefix test: a link whose
      target lies in a sibling directory whose name extends the download
      directory's name passes it. */
  lemma SiblingPrefixAccepted(root: string, e: Entry)
    requires e.kind == RegularFile && PathSegment(e.name) && e.name != "." && e.name != ".."
    requires |e.name| > 4 && EndsWith(e.name, ".zip")
    requires e.resolved == root + "_old/" + e.name
    ensures DeleteOsImage(Present(root, [e]), e.name, RemoveOk).reply == Deleted("Deleted " + e.name)
  {
    var dir := Present(root, [e]);
    assert StartsWith(e.resolved, root) by {
      assert e.resolved[..|root|] == root;
    }
    assert e in dir.entries;
    DeleteAccepted(dir, e.name, RemoveOk);
  }
}
