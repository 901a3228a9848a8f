/** The chunk store of a storage node (StorageService): one file per chunk in a flat directory,
    named by `generateFilename`, and the inventory the node reports in its heartbeats. */
module Storage {
  import opened Common
  import opened ChunkNames

  /** An entry of the storage directory: a regular file with its bytes, or a sub-directory,
      which `Files.isRegularFile` refuses and `Files.delete` removes only when it is empty. */
  datatype Entry = RegularFile(data: Bytes) | Directory(isEmpty: bool)

  type Dir = map<string, Entry>

  /** Why a file operation fails; each is a RuntimeException of the Java code. */
  datatype StorageError =
    | ChunkNotFound       // readChunk of a name that does not exist
    | NotAFile            // reading or overwriting a directory
    | DirectoryNotEmpty   // deleting a directory that has entries

  datatype Outcome<T> = Done(value: T) | Failed(error: StorageError)

  /** The inventory: each blob id with the indices of its chunks. */
  type Inventory = map<PdfId, seq<int>>

  // ---------------------------------------------------------------------------------------
  // The directory operations
  // ---------------------------------------------------------------------------------------

  /** Files.write: creates the file or replaces its contents; a directory in the way fails. */
  function WriteFile(dir: Dir, name: string, data: Bytes): Outcome<Dir> {
    if name in dir && dir[name].Directory? then Failed(NotAFile)
    else Done(dir[name := RegularFile(data)])
  }

  /** readChunk: a missing name is "chunk not found"; a directory cannot be read. */
  function ReadFile(dir: Dir, name: string): Outcome<Bytes> {
    if name !in dir then Failed(ChunkNotFound)
    else if dir[name].Directory? then Failed(NotAFile)
    else Done(dir[name].data)
  }

  /** deleteChunk: a missing name is left alone without error. */
  function DeleteFile(dir: Dir, name: string): Outcome<Dir> {
    if name !in dir then Done(dir)
    else if dir[name] == Directory(false) then Failed(DirectoryNotEmpty)
    else Done(dir - {name})
  }

  // ---------------------------------------------------------------------------------------
  // The inventory
  // ---------------------------------------------------------------------------------------

  /** The key a directory entry reports: a regular file whose name reads back as a key. */
  function ParseEntry(dir: Dir, name: string): Option<ChunkKey> {
    if name in dir && dir[name].RegularFile? then ParseChunkName(name) else None
  }

  /** `computeIfAbsent(pdfId, k -> new ArrayList<>()).add(chunkIndex)`. */
  function AddIndex(inv: Inventory, k: ChunkKey): Inventory {
    inv[k.pdfId := (if k.pdfId in inv then inv[k.pdfId] else []) + [k.chunkIndex]]
  }

  /** The lists of the inventory before sorting, filled in the order the directory lists its
      entries. */
  function Collect(dir: Dir, names: seq<string>): Inventory {
    if names == [] then map[]
    else
      var prev := Collect(dir, names[..|names| - 1]);
      match ParseEntry(dir, names[|names| - 1])
      case None => prev
      case Some(k) => AddIndex(prev, k)
  }

  predicate SortedAsc(s: seq<int>) {
    forall i, j :: 0 <= i < j < |s| ==> s[i] <= s[j]
  }

  /** `x` placed before the first element not smaller than it. */
  function InsertAsc(x: int, s: seq<int>): seq<int> {
    if s == [] then [x]
    else if x <= s[0] then [x] + s
    else [s[0]] + InsertAsc(x, s[1..])
  }

  /** Collections.sort on a list of indices, as an insertion sort. */
  function SortAsc(s: seq<int>): seq<int> {
    if s == [] then [] else InsertAsc(s[0], SortAsc(s[1..]))
  }

  lemma SortedCons(a: int, t: seq<int>)
    requires SortedAsc(t) && (t == [] || a <= t[0])
    ensures SortedAsc([a] + t)
  {
    var r := [a] + t;
    forall i, j | 0 <= i < j < |r| ensures r[i] <= r[j] {
      if i == 0 {
        assert r[j] == t[j - 1];
        assert t[0] <= t[j - 1];
      } else {
        assert r[i] == t[i - 1] && r[j] == t[j - 1];
      }
    }
  }

  /** Inserting into a sorted list keeps it sorted; the new head is `x` or the old head. */
  lemma {:induction false} InsertAscSorted(x: int, s: seq<int>)
    requires SortedAsc(s)
    ensures var r := InsertAsc(x, s); SortedAsc(r) && |r| > 0 && (r[0] == x || (|s| > 0 && r[0] == s[0]))
  {
    if s == [] {
    } else if x <= s[0] {
      SortedCons(x, s);
    } else {
      var t := s[1..];
      assert SortedAsc(t) by {
        forall i, j | 0 <= i < j < |t| ensures t[i] <= t[j] { assert t[i] == s[i + 1] && t[j] == s[j + 1]; }
      }
      InsertAscSorted(x, t);
      var rest := InsertAsc(x, t);
      assert t != [] ==> s[0] <= t[0];
      SortedCons(s[0], rest);
    }
  }

  /** Inserting adds exactly `x`. */
  lemma {:induction false} InsertAscMultiset(x: int, s: seq<int>)
    ensures multiset(InsertAsc(x, s)) == multiset(s) + multiset{x}
  {
    if s != [] && x > s[0] {
      InsertAscMultiset(x, s[1..]);
      assert s == [s[0]] + s[1..];
    }
  }

  /** The sort yields an ascending list with the same elements, as often as before. */
  lemma {:induction false} SortAscCorrect(s: seq<int>)
    ensures SortedAsc(SortAsc(s)) && multiset(SortAsc(s)) == multiset(s)
  {
    if s != [] {
      SortAscCorrect(s[1..]);
      InsertAscSorted(s[0], SortAsc(s[1..]));
      InsertAscMultiset(s[0], SortAsc(s[1..]));
      assert s == [s[0]] + s[1..];
    }
  }

  /** getInventory: every list of the collected inventory sorted ascending. */
  function BuildInventory(dir: Dir, names: seq<string>): (r: Inventory)
    ensures var raw := Collect(dir, names);
            && r.Keys == raw.Keys
            && forall p :: p in r ==> SortedAsc(r[p]) && multiset(r[p]) == multiset(raw[p])
  {
    var raw := Collect(dir, names);
    assert forall p :: p in raw ==> SortedAsc(SortAsc(raw[p])) && multiset(SortAsc(raw[p])) == multiset(raw[p]) by {
      forall p | p in raw ensures SortedAsc(SortAsc(raw[p])) && multiset(SortAsc(raw[p])) == multiset(raw[p]) {
        SortAscCorrect(raw[p]);
      }
    }
    map p | p in raw :: SortAsc(raw[p])
  }

  /** The directory lists each entry once, and lists all of them. */
  ghost predicate Listing(dir: Dir, names: seq<string>) {
    Distinct(names) && forall n :: n in names <==> n in dir
  }

  /** Some entry of the listing reports `k`. */
  ghost predicate ListedIn(dir: Dir, names: seq<string>, k: ChunkKey) {
    exists j :: 0 <= j < |names| && ParseEntry(dir, names[j]) == Some(k)
  }

  /** Some regular file of the directory has a name that reads back as `k`. */
  ghost predicate StoredUnder(dir: Dir, k: ChunkKey) {
    exists name :: name in dir && dir[name].RegularFile? && ParseChunkName(name) == Some(k)
  }

  /** The inventory lists the index of `k` under its blob id. */
  ghost predicate Reports(inv: Inventory, k: ChunkKey) {
    k.pdfId in inv && k.chunkIndex in inv[k.pdfId]
  }

  /** Adding a key reports it and keeps reporting the others. */
  lemma AddIndexReports(inv: Inventory, added: ChunkKey)
    ensures forall k :: Reports(AddIndex(inv, added), k) <==> Reports(inv, k) || k == added
    ensures forall p :: p in inv && |inv[p]| > 0 ==> |AddIndex(inv, added)[p]| > 0
    ensures |AddIndex(inv, added)[added.pdfId]| > 0
  {
  }

  /** One more entry of the listing reports what it parses to. */
  lemma ListedInSnoc(dir: Dir, names: seq<string>, name: string)
    ensures forall k :: ListedIn(dir, names + [name], k) <==> ListedIn(dir, names, k) || ParseEntry(dir, name) == Some(k)
  {
    var names' := names + [name];
    forall k ensures ListedIn(dir, names', k) <==> ListedIn(dir, names, k) || ParseEntry(dir, name) == Some(k) {
      if ListedIn(dir, names, k) {
        var j :| 0 <= j < |names| && ParseEntry(dir, names[j]) == Some(k);
        assert names'[j] == names[j];
      }
      if ParseEntry(dir, name) == Some(k) {
        assert names'[|names|] == name;
      }
      if ListedIn(dir, names', k) {
        var j :| 0 <= j < |names'| && ParseEntry(dir, names'[j]) == Some(k);
        if j < |names| {
          assert names[j] == names'[j];
        }
      }
    }
  }

  /** An index is collected for a blob exactly when some listed entry reports that key, and
      no blob is collected without an index. */
  lemma {:induction false} CollectMembers(dir: Dir, names: seq<string>)
    ensures forall k :: Reports(Collect(dir, names), k) <==> ListedIn(dir, names, k)
    ensures var inv := Collect(dir, names); forall p :: p in inv ==> |inv[p]| > 0
  {
    if names != [] {
      var init := names[..|names| - 1];
      var name := names[|names| - 1];
      CollectMembers(dir, init);
      assert names == init + [name];
      ListedInSnoc(dir, init, name);
      match ParseEntry(dir, name)
      case None => assert Collect(dir, names) == Collect(dir, init);
      case Some(added) => AddIndexReports(Collect(dir, init), added);
    }
  }

  /** Collecting one more entry of the listing. */
  lemma CollectSnoc(dir: Dir, names: seq<string>, i: nat)
    requires i < |names|
    ensures Collect(dir, names[..i + 1]) == match ParseEntry(dir, names[i])
                                            case None => Collect(dir, names[..i])
                                            case Some(k) => AddIndex(Collect(dir, names[..i]), k)
  {
    assert names[..i + 1][..i] == names[..i];
  }

  /** Sorting the lists changes what they hold in no way, and empties none. */
  lemma SortedReports(dir: Dir, names: seq<string>)
    ensures forall k :: Reports(BuildInventory(dir, names), k) <==> Reports(Collect(dir, names), k)
    ensures var inv, raw := BuildInventory(dir, names), Collect(dir, names);
            forall p :: p in inv ==> |inv[p]| == |raw[p]|
  {
    var inv, raw := BuildInventory(dir, names), Collect(dir, names);
    forall k: ChunkKey | k.pdfId in inv ensures k.chunkIndex in inv[k.pdfId] <==> k.chunkIndex in raw[k.pdfId] {
      assert k.chunkIndex in inv[k.pdfId] <==> k.chunkIndex in multiset(inv[k.pdfId]);
      assert k.chunkIndex in raw[k.pdfId] <==> k.chunkIndex in multiset(raw[k.pdfId]);
    }
    forall p | p in inv ensures |inv[p]| == |raw[p]| {
      assert |multiset(inv[p])| == |multiset(raw[p])|;
    }
  }

  /** Over a listing of the whole directory, an entry of the listing reports a key exactly when
      a regular file is named so that it reads back as that key. */
  lemma ListedIffStored(dir: Dir, names: seq<string>)
    requires Listing(dir, names)
    ensures forall k :: ListedIn(dir, names, k) <==> StoredUnder(dir, k)
  {
    forall k | StoredUnder(dir, k) ensures ListedIn(dir, names, k) {
      var name :| name in dir && dir[name].RegularFile? && ParseChunkName(name) == Some(k);
      var j :| 0 <= j < |names| && names[j] == name;
      assert ParseEntry(dir, names[j]) == Some(k);
    }
  }

  /** Over a listing of the whole directory, the inventory reports exactly the keys stored
      under some regular file; every index it reports is non-negative and fits an `int`, and
      every blob it names has at least one index. */
  lemma InventoryMembers(dir: Dir, names: seq<string>)
    requires Listing(dir, names)
    ensures forall k :: Reports(BuildInventory(dir, names), k) <==> StoredUnder(dir, k)
    ensures forall k :: Reports(BuildInventory(dir, names), k) ==> 0 <= k.chunkIndex <= INT_MAX
    ensures var inv := BuildInventory(dir, names); forall p :: p in inv ==> |inv[p]| > 0
  {
    CollectMembers(dir, names);
    SortedReports(dir, names);
    ListedIffStored(dir, names);
    forall k | ListedIn(dir, names, k) ensures 0 <= k.chunkIndex <= INT_MAX {
      var j :| 0 <= j < |names| && ParseEntry(dir, names[j]) == Some(k);
    }
  }

  /** When every regular file is named after a well-formed key (the only files the node itself
      writes), the inventory reports exactly the keys that have a file. */
  lemma InventoryOfGeneratedNames(dir: Dir, names: seq<string>)
    requires Listing(dir, names)
    requires forall name :: name in dir && dir[name].RegularFile? ==> exists k :: WellFormedKey(k) && FileName(k) == name
    ensures var inv := BuildInventory(dir, names);
            forall k :: Reports(inv, k) <==>
              WellFormedKey(k) && FileName(k) in dir && dir[FileName(k)].RegularFile?
  {
    InventoryMembers(dir, names);
    forall k ensures StoredUnder(dir, k) <==> WellFormedKey(k) && FileName(k) in dir && dir[FileName(k)].RegularFile? {
      if StoredUnder(dir, k) {
        var name :| name in dir && dir[name].RegularFile? && ParseChunkName(name) == Some(k);
        var k' :| WellFormedKey(k') && FileName(k') == name;
        ChunkNameRoundTrip(k');
      }
      if WellFormedKey(k) && FileName(k) in dir && dir[FileName(k)].RegularFile? {
        ChunkNameRoundTrip(k);
      }
    }
  }

  /** A read after a successful write of a well-formed key returns what was written, and the
      chunks of the other well-formed keys are unaffected. */
  lemma ReadAfterWrite(dir: Dir, k: ChunkKey, data: Bytes, other: ChunkKey)
    requires WellFormedKey(k) && WellFormedKey(other) && WriteFile(dir, FileName(k), data).Done?
    ensures var after := WriteFile(dir, FileName(k), data).value;
            ReadFile(after, FileName(other)) == if other == k then Done(data) else ReadFile(dir, FileName(other))
  {
    if other != k {
      if FileName(other) == FileName(k) { FileNameInjective(other, k); }
    }
  }

  /** After a successful delete the chunk is gone, the chunks of the other well-formed keys
      are unaffected, and deleting it again changes nothing. */
  lemma ReadAfterDelete(dir: Dir, k: ChunkKey, other: ChunkKey)
    requires WellFormedKey(k) && WellFormedKey(other) && DeleteFile(dir, FileName(k)).Done?
    ensures var after := DeleteFile(dir, FileName(k)).value;
            && ReadFile(after, FileName(other)) == (if other == k then Failed(ChunkNotFound) else ReadFile(dir, FileName(other)))
            && DeleteFile(after, FileName(k)) == Done(after)
  {
    if other != k {
      if FileName(other) == FileName(k) { FileNameInjective(other, k); }
    }
  }

  /** A chunk written under a well-formed key shows in the next inventory. */
  lemma InventoryAfterWrite(dir: Dir, names: seq<string>, k: ChunkKey, data: Bytes)
    requires Listing(dir, names) && WellFormedKey(k) && WriteFile(dir, FileName(k), data).Done?
    ensures var after := WriteFile(dir, FileName(k), data).value;
            var names' := if FileName(k) in names then names else names + [FileName(k)];
            var inv := BuildInventory(after, names');
            Reports(inv, k)
  {
    var name := FileName(k);
    var after := WriteFile(dir, name, data).value;
    var names' := if name in names then names else names + [name];
    assert Listing(after, names') by {
      if name !in names {
        forall i, j | 0 <= i < j < |names'| ensures names'[i] != names'[j] {
          if j == |names| { assert names'[i] == names[i]; } else { assert names'[i] == names[i] && names'[j] == names[j]; }
        }
      }
    }
    ChunkNameRoundTrip(k);
    InventoryMembers(after, names');
    assert StoredUnder(after, k);
  }

  // ---------------------------------------------------------------------------------------
  // The service
  // ---------------------------------------------------------------------------------------

  class StorageService {
    /** The storage directory and the order in which `Files.list` returns its entries. */
    var dir: Dir
    var listing: seq<string>

    ghost predicate Valid()
      reads this
    {
      Listing(dir, listing)
    }

    /** The service over the directory as it is found at start-up. */
    constructor (existing: Dir, order: seq<string>)
      requires Listing(existing, order)
      ensures Valid() && dir == existing && listing == order
    {
      dir := existing;
      listing := order;
    }

    /** writeChunk: the chunk is stored under its file name; a name new to the directory is
        listed after the others. */
    method WriteChunk(pdfId: PdfId, chunkIndex: int, data: Bytes) returns (r: Outcome<()>)
      requires Valid()
      modifies this
      ensures Valid()
      ensures var name := GenerateFilename(pdfId, chunkIndex);
              match WriteFile(old(dir), name, data)
              case Done(d) =>
                r == Done(()) && dir == d
                && listing == if name in old(listing) then old(listing) else old(listing) + [name]
              case Failed(e) => r == Failed(e) && dir == old(dir) && listing == old(listing)
    {
      var name := GenerateFilename(pdfId, chunkIndex);
      if name in dir && dir[name].Directory? {
        return Failed(NotAFile);
      }
      if name !in listing {
        listing := listing + [name];
      }
      dir := dir[name := RegularFile(data)];
      r := Done(());
    }

    /** readChunk. */
    method ReadChunk(pdfId: PdfId, chunkIndex: int) returns (r: Outcome<Bytes>)
      ensures r == ReadFile(dir, GenerateFilename(pdfId, chunkIndex))
    {
      var name := GenerateFilename(pdfId, chunkIndex);
      if name !in dir {
        return Failed(ChunkNotFound);
      }
      match dir[name]
      case Directory(_) => r := Failed(NotAFile);
      case RegularFile(data) => r := Done(data);
    }

    /** chunkExists: whether anything, file or directory, has the chunk's name. */
    method ChunkExists(pdfId: PdfId, chunkIndex: int) returns (b: bool)
      ensures b <==> ReadFile(dir, GenerateFilename(pdfId, chunkIndex)) != Failed(ChunkNotFound)
    {
      b := GenerateFilename(pdfId, chunkIndex) in dir;
    }

    /** deleteChunk: a missing chunk is no error. */
    method DeleteChunk(pdfId: PdfId, chunkIndex: int) returns (r: Outcome<()>)
      requires Valid()
      modifies this
      ensures Valid()
      ensures var name := GenerateFilename(pdfId, chunkIndex);
              match DeleteFile(old(dir), name)
              case Done(d) =>
                r == Done(()) && dir == d
                && listing == if name in old(dir) then Without(old(listing), name) else old(listing)
              case Failed(e) => r == Failed(e) && dir == old(dir) && listing == old(listing)
    {
      var name := GenerateFilename(pdfId, chunkIndex);
      if name in dir {
        if dir[name] == Directory(false) {
          return Failed(DirectoryNotEmpty);
        }
        dir := dir - {name};
        listing := Without(listing, name);
      }
      r := Done(());
    }

    /** getInventory: the entries in listing order, each regular file whose name reads back as
        a key adding its index to its blob's list, then every list sorted. */
    method GetInventory() returns (inventory: Inventory)
      ensures inventory == BuildInventory(dir, listing)
    {
      var raw: Inventory := map[];
      var i := 0;
      while i < |listing|
        invariant 0 <= i <= |listing|
        invariant raw == Collect(dir, listing[..i])
      {
        var name := listing[i];
        CollectSnoc(dir, listing, i);
        if name in dir && dir[name].RegularFile? && MatchesChunkPattern(name) {
          var parsed := ParseChunkName(name);
          if parsed.Some? {
            raw := AddIndex(raw, parsed.value);
          }
        }
        i := i + 1;
      }
      assert listing[..i] == listing;
      inventory := SortLists(raw);
    }

    /** `inventory.values().forEach(Collections::sort)`, one list at a time. */
    static method SortLists(raw: Inventory) returns (sorted: Inventory)
      ensures sorted == map p | p in raw :: SortAsc(raw[p])
    {
      sorted := raw;
      var todo := raw.Keys;
      while todo != {}
        invariant todo <= raw.Keys && sorted.Keys == raw.Keys
        invariant forall p :: p in raw ==> sorted[p] == if p in todo then raw[p] else SortAsc(raw[p])
        decreases |todo|
      {
        var p :| p in todo;
        sorted := sorted[p := SortAsc(sorted[p])];
        todo := todo - {p};
      }
    }
  }
}
