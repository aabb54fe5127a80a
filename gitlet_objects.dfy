/** Gitlet's object store: objects are kept under a path made from their
    hash, a directory named by its first two characters and a file named by
    the rest, and each kind of object has its set of tracked paths. */
module GitletObjects {
  import opened Common

  /** DIR_DELIM */
  const DIR_DELIM: nat := 2

  /** hashToFile(hash): StringIndexOutOfBoundsException for a hash shorter
      than two characters. */
  function HashToFile(h: string): (r: Result<string>)
    ensures r.Err? <==> |h| < DIR_DELIM
    ensures r.Ok? ==> |r.value| == |h| + 1 && r.value[..DIR_DELIM] == h[..DIR_DELIM]
                      && r.value[DIR_DELIM] == '/' && r.value[DIR_DELIM + 1..] == h[DIR_DELIM..]
  {
    if |h| < DIR_DELIM then Err("StringIndexOutOfBoundsException")
    else Ok(h[..DIR_DELIM] + "/" + h[DIR_DELIM..])
  }

  /** The position of the first occurrence of c in s, or |s|. */
  function IndexOf(s: string, c: char): (i: nat)
    ensures i <= |s| && (i < |s| ==> s[i] == c)
    ensures forall j :: 0 <= j < i ==> s[j] != c
  {
    if s == [] then 0 else if s[0] == c then 0 else IndexOf(s[1..], c) + 1
  }

  /** fileToHash(file): file.replaceFirst("/", ""), the file name with its
      first '/' taken out. */
  function FileToHash(f: string): (r: string)
    ensures '/' in f ==> |r| == |f| - 1
    ensures '/' !in f ==> r == f
  {
    var i := IndexOf(f, '/');
    if i == |f| then f else f[..i] + f[i + 1..]
  }

  /** fileToHash undoes hashToFile for every hash of two characters or more
      with no '/' among its first two. */
  lemma FileToHashToFile(h: string)
    requires |h| >= DIR_DELIM && '/' !in h[..DIR_DELIM]
    ensures HashToFile(h).Ok? && FileToHash(HashToFile(h).value) == h
  {
    var f := HashToFile(h).value;
    assert f[DIR_DELIM] == '/';
    assert forall j :: 0 <= j < DIR_DELIM ==> f[j] == h[..DIR_DELIM][j];
    assert IndexOf(f, '/') == DIR_DELIM;
    assert h == h[..DIR_DELIM] + h[DIR_DELIM..];
  }

  /** Two such hashes with the same path are the same hash. */
  lemma HashToFileInjective(h: string, k: string)
    requires |h| >= DIR_DELIM && '/' !in h[..DIR_DELIM]
    requires |k| >= DIR_DELIM && '/' !in k[..DIR_DELIM]
    requires HashToFile(h) == HashToFile(k)
    ensures h == k
  {
    FileToHashToFile(h);
    FileToHashToFile(k);
  }

  /** A path whose third character is its first '/' is the path of the hash
      fileToHash gives for it. */
  lemma HashToFileToHash(f: string)
    requires |f| > DIR_DELIM && f[DIR_DELIM] == '/' && '/' !in f[..DIR_DELIM]
    ensures HashToFile(FileToHash(f)) == Ok(f)
  {
    assert forall j :: 0 <= j < DIR_DELIM ==> f[j] == f[..DIR_DELIM][j];
    assert IndexOf(f, '/') == DIR_DELIM;
    assert f == f[..DIR_DELIM] + "/" + f[DIR_DELIM + 1..];
  }

  /** The store. The kind of an object is the name of its class; tracker
      maps each kind with objects to the paths of its objects. */
  class ObjectStore<T> {
    var tracker: map<string, set<string>>
    var loaded: map<string, (string, T)>

    /** Every tracked path holds an object of its kind, and every object is
        tracked under its kind. */
    ghost predicate Valid()
      reads this
    {
      && (forall kind, f :: kind in tracker && f in tracker[kind] ==> f in loaded && loaded[f].0 == kind)
      && (forall f :: f in loaded ==> loaded[f].0 in tracker && f in tracker[loaded[f].0])
    }

    /** The object a hash names, if any. */
    ghost function Stored(h: string): Option<T>
      reads this
    {
      var p := HashToFile(h);
      if p.Ok? && p.value in loaded then Some(loaded[p.value].1) else None
    }

    constructor ()
      ensures Valid() && tracker == map[] && loaded == map[]
    {
      tracker := map[];
      loaded := map[];
    }

    /** contains(hash): the single-argument contains of the store asks each
        tracked kind, in turn, whether it holds the hash's path, so a short
        hash throws only when some kind is tracked. */
    function Contains(h: string): (r: Result<bool>)
      reads this
      requires Valid()
      ensures tracker == map[] ==> r == Ok(false)
      ensures r.Err? <==> tracker != map[] && |h| < DIR_DELIM
      ensures r.Ok? && |h| >= DIR_DELIM ==> (r.value <==> HashToFile(h).value in loaded)
    {
      if tracker == map[] then Ok(false)
      else match HashToFile(h) {
        case Err(e) => Err(e)
        case Ok(f) => Ok(exists kind :: kind in tracker && f in tracker[kind])
      }
    }

    /** add(file, obj): IllegalStateException when an object is stored
        under the path already; otherwise the object is stored and tracked
        under its kind. */
    method Add(f: string, kind: string, obj: T) returns (r: Result<()>)
      requires Valid()
      modifies this
      ensures Valid()
      ensures r.Err? <==> f in old(loaded)
      ensures r.Err? ==> r.msg == kind + " as specified already exists."
                         && loaded == old(loaded) && tracker == old(tracker)
      ensures r.Ok? ==> loaded == old(loaded)[f := (kind, obj)]
      ensures r.Ok? ==> tracker == old(tracker)[kind := (if kind in old(tracker) then old(tracker)[kind] else {}) + {f}]
    {
      if f in loaded {
        return Err(kind + " as specified already exists.");
      }
      loaded := loaded[f := (kind, obj)];
      var tracked := if kind in tracker then tracker[kind] else {};
      tracker := tracker[kind := tracked + {f}];
      r := Ok(());
    }

    /** put(obj), given the object's sha1 hash and kind: the object is added
        under its hash's path unless the hash is already stored, and the
        hash is returned. */
    method Put(h: string, kind: string, obj: T) returns (r: Result<string>)
      requires Valid()
      modifies this
      ensures Valid()
      ensures r.Err? <==> |h| < DIR_DELIM
      ensures r.Err? ==> tracker == old(tracker) && loaded == old(loaded)
      ensures r.Ok? ==> r.value == h && Contains(h) == Ok(true)
      ensures r.Ok? && old(Stored(h)).Some? ==> tracker == old(tracker) && loaded == old(loaded)
      ensures r.Ok? && old(Stored(h)).None? ==>
                Stored(h) == Some(obj) && loaded == old(loaded)[HashToFile(h).value := (kind, obj)]
    {
      var c := Contains(h);
      if c.Err? {
        return Err(c.msg);
      }
      if !c.value {
        var f := HashToFile(h);
        if f.Err? {
          return Err(f.msg);
        }
        var added := Add(f.value, kind, obj);
      }
      r := Ok(h);
    }
  }

  /** Putting the same object twice stores it once. */
  method PutTwice<T>(store: ObjectStore<T>, h: string, kind: string, obj: T) returns (r1: Result<string>, r2: Result<string>)
    requires store.Valid() && |h| >= DIR_DELIM
    modifies store
    ensures r1 == Ok(h) && r2 == Ok(h) && store.Stored(h).Some?
    ensures old(store.Stored(h)).None? ==> store.Stored(h) == Some(obj)
  {
    r1 := store.Put(h, kind, obj);
    r2 := store.Put(h, kind, obj);
  }
}
