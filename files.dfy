/** Documents: `File` and `FSFile` of hana/core.py:169-259.

    A `File` is a dict of attributes; an `FSFile` is a `File` whose `contents` is read
    from disk on first access. Both are modelled by one class: `backing` is `None` for a
    plain `File` and holds the disk file for an `FSFile`. The bytes on disk and the UTF-8
    decoder are given as values when the file is created. */
module Files {
  import opened Errors
  import opened Values

  /** `CHUNKSIZE` of the binary probe (hana/core.py:233). */
  const CHUNK_SIZE: nat := 1024

  /** Where an `FSFile` reads its contents: its path, the bytes stored there, and the
      UTF-8 decoder (`None` for bytes that are not valid UTF-8). */
  datatype Backing = Backing(filename: string, data: seq<byte>, decode: seq<byte> -> Option<string>)

  // ----- binary detection -----

  /** `File.is_binary` (hana/core.py:177-183): missing or falsy contents count as binary,
      other contents are binary when they contain a NUL; a missing key raises KeyError. */
  function ContentsAreBinary(attrs: map<string, Value>): (r: Result<bool>)
    ensures "contents" !in attrs ==> r == Err(KeyError)
    ensures "contents" in attrs && !Truthy(attrs["contents"]) ==> r == Ok(true)
    ensures "contents" in attrs && attrs["contents"].StrV? ==>
              r == Ok(attrs["contents"].s == [] || NUL in attrs["contents"].s)
    ensures "contents" in attrs && attrs["contents"].BytesV? ==>
              r == Ok(attrs["contents"].bytes == [] || 0 in attrs["contents"].bytes)
  {
    if "contents" !in attrs then Err(KeyError)
    else if !Truthy(attrs["contents"]) then Ok(true)
    else ContainsNul(attrs["contents"])
  }

  /** What the chunked probe of `FSFile.is_binary` leaves in `_is_binary` when it starts
      from None: True when a NUL is found; otherwise False once a full chunk has been
      read, and still None for a file shorter than one chunk. */
  function ProbeVerdict(data: seq<byte>): (r: Option<bool>)
    ensures r == Some(false) <==> |data| >= CHUNK_SIZE && forall i :: 0 <= i < |data| ==> data[i] != 0
  {
    if 0 in data then Some(true)
    else if |data| < CHUNK_SIZE then None
    else Some(false)
  }

  /** The probe's verdict is truthy exactly when the file holds a NUL byte; a text file
      is reported as None or False, both falsy. */
  lemma ProbeTruthyIffNul(data: seq<byte>)
    ensures ProbeVerdict(data) == Some(true) <==> 0 in data
    ensures 0 !in data ==> (ProbeVerdict(data) == None <==> |data| < CHUNK_SIZE)
  {
  }

  /** The `while True` loop of hana/core.py:235-244: read chunks of CHUNK_SIZE bytes,
      stop at the first chunk that holds a NUL or at the first short chunk. */
  method ScanForNul(data: seq<byte>) returns (verdict: Option<bool>)
    ensures verdict == ProbeVerdict(data)
  {
    verdict := None;
    var pos := 0;
    while true
      invariant 0 <= pos <= |data|
      invariant pos == 0 || pos >= CHUNK_SIZE
      invariant 0 !in data[..pos]
      invariant verdict == if pos == 0 then None else Some(false)
      decreases |data| - pos
    {
      var end := if pos + CHUNK_SIZE <= |data| then pos + CHUNK_SIZE else |data|;
      var chunk := data[pos..end];
      assert data[..end] == data[..pos] + chunk;
      if 0 in chunk {
        verdict := Some(true);
        return;
      }
      if |chunk| < CHUNK_SIZE {
        assert data[..end] == data;
        return;
      }
      verdict := Some(false);
      pos := end;
    }
  }

  /** The contents `_get_contents` stores for a given `is_binary` answer: the raw bytes
      when it is truthy, otherwise the decoded text. */
  function LoadedContents(b: Backing, binary: Option<bool>): (r: Result<Value>)
    ensures binary == Some(true) ==> r == Ok(BytesV(b.data))
    ensures binary != Some(true) ==> (r.Ok? <==> b.decode(b.data).Some?)
    ensures binary != Some(true) && r.Ok? ==> r.value == StrV(b.decode(b.data).value)
  {
    if binary == Some(true) then Ok(BytesV(b.data))
    else match b.decode(b.data)
      case Some(text) => Ok(StrV(text))
      case None => Err(UnicodeDecodeError)
  }

  /** The cached `_is_binary` after `is_binary` is read on an unloaded file: the probe
      runs only while the cache is None. */
  function ProbedCache(cache: Option<bool>, data: seq<byte>): (r: Option<bool>)
    ensures cache.Some? ==> r == cache
    ensures cache.None? ==> (r == Some(true) <==> 0 in data)
  {
    if cache.None? then ProbeVerdict(data) else cache
  }

  class File {
    /** The dict entries of the file. */
    var attrs: map<string, Value>
    /** None for a plain `File`, the disk file of an `FSFile`. */
    const backing: Option<Backing>
    /** `FSFile.loaded`; a plain `File` counts as loaded. */
    var loaded: bool
    /** `FSFile._is_binary`. */
    var cachedBinary: Option<bool>
    /** How many times the contents have been loaded from disk. */
    ghost var loads: nat

    /** Contents are loaded at most once, and only for an `FSFile`. */
    ghost predicate Valid()
      reads this
    {
      && (backing.None? ==> loaded && loads == 0)
      && (backing.Some? ==> backing.value.filename != "" && loads == if loaded then 1 else 0)
    }

    /** `File(**attrs)`. */
    constructor (attrs0: map<string, Value>)
      ensures Valid() && attrs == attrs0 && backing.None? && cachedBinary.None?
    {
      attrs := attrs0;
      backing := None;
      loaded := true;
      cachedBinary := None;
      loads := 0;
    }

    constructor OnDisk(b: Backing, attrs0: map<string, Value>)
      requires b.filename != ""
      ensures Valid() && attrs == attrs0 && backing == Some(b)
      ensures !loaded && cachedBinary.None? && loads == 0
    {
      attrs := attrs0;
      backing := Some(b);
      loaded := false;
      cachedBinary := None;
      loads := 0;
    }

    /** `FSFile(filename, **attrs)` (hana/core.py:207-215): an empty filename reaches a
        bare `raise` with no active exception, which Python 2 reports as TypeError. */
    static method OpenFS(filename: string, data: seq<byte>, decode: seq<byte> -> Option<string>,
                         attrs0: map<string, Value>) returns (r: Result<File>)
      ensures filename == "" <==> r.Err?
      ensures r.Err? ==> r.error == TypeError
      ensures r.Ok? ==> fresh(r.value) && r.value.Valid()
      ensures r.Ok? ==> r.value.backing == Some(Backing(filename, data, decode))
      ensures r.Ok? ==> r.value.attrs == attrs0 && !r.value.loaded && r.value.cachedBinary.None?
    {
      if filename == "" {
        return Err(TypeError);
      }
      var f := new File.OnDisk(Backing(filename, data, decode), attrs0);
      return Ok(f);
    }

    /** `f[key] = value`: a plain dict write. */
    method Set(key: string, value: Value)
      requires Valid()
      modifies this`attrs
      ensures Valid() && attrs == old(attrs)[key := value]
    {
      attrs := attrs[key := value];
    }

    /** `FSFile.is_binary` on an unloaded file, then `_get_contents`
        (hana/core.py:248-256): raw bytes when the probe said binary, decoded text
        otherwise; `loaded` is set only when the load succeeds. */
    method LoadContents() returns (r: Outcome)
      requires Valid() && backing.Some? && !loaded
      modifies this`attrs, this`loaded, this`cachedBinary, this`loads
      ensures Valid()
      ensures cachedBinary == ProbedCache(old(cachedBinary), backing.value.data)
      ensures match LoadedContents(backing.value, cachedBinary)
              case Ok(c) =>
                r == Pass && attrs == old(attrs)["contents" := c] && loaded && loads == old(loads) + 1
              case Err(e) =>
                r == Fail(e) && attrs == old(attrs) && !loaded && loads == old(loads)
    {
      var binary := IsBinary();
      match LoadedContents(backing.value, binary.value)
      case Ok(c) =>
        attrs := attrs["contents" := c];
        loaded := true;
        loads := loads + 1;
        r := Pass;
      case Err(e) =>
        r := Fail(e);
    }

    /** `f[key]` (hana/core.py:217-221): reading `contents` of an unloaded `FSFile` loads it
        first; every other read is a dict lookup, KeyError when the key is missing. */
    method Get(key: string) returns (r: Result<Value>)
      requires Valid()
      modifies this`attrs, this`loaded, this`cachedBinary, this`loads
      ensures Valid()
      ensures !(key == "contents" && !old(loaded)) ==>
                unchanged(this) && r == (if key in attrs then Ok(attrs[key]) else Err(KeyError))
      ensures key == "contents" && !old(loaded) ==>
                var b := backing.value;
                && cachedBinary == ProbedCache(old(cachedBinary), b.data)
                && (match LoadedContents(b, cachedBinary)
                    case Ok(c) =>
                      r == Ok(c) && attrs == old(attrs)["contents" := c] && loaded && loads == old(loads) + 1
                    case Err(e) =>
                      r == Err(e) && attrs == old(attrs) && !loaded && loads == old(loads))
    {
      if key == "contents" && !loaded {
        var o := LoadContents();
        if o.Fail? {
          return Err(o.error);
        }
      }
      r := if key in attrs then Ok(attrs[key]) else Err(KeyError);
    }

    /** `is_binary`. For a plain `File`, `ContentsAreBinary`. For an `FSFile`
        (hana/core.py:224-246): once loaded, the cache is reset and the answer is whether
        the loaded contents hold a NUL; before that, the disk probe runs while the cache
        is None and the cache is returned. */
    method IsBinary() returns (r: Result<Option<bool>>)
      requires Valid()
      modifies this`cachedBinary
      ensures Valid()
      ensures backing.None? ==>
                && cachedBinary == old(cachedBinary)
                && r == (match ContentsAreBinary(attrs) case Ok(b) => Ok(Some(b)) case Err(e) => Err(e))
      ensures backing.Some? && loaded ==>
                && cachedBinary.None?
                && r == (if "contents" !in attrs then Err(KeyError)
                         else match ContainsNul(attrs["contents"]) case Ok(b) => Ok(Some(b)) case Err(e) => Err(e))
      ensures backing.Some? && !loaded ==>
                cachedBinary == ProbedCache(old(cachedBinary), backing.value.data) && r == Ok(cachedBinary)
    {
      if backing.None? {
        var b := ContentsAreBinary(attrs);
        r := if b.Ok? then Ok(Some(b.value)) else Err(b.error);
      } else if loaded {
        cachedBinary := None;
        if "contents" !in attrs {
          r := Err(KeyError);
        } else {
          var b := ContainsNul(attrs["contents"]);
          r := if b.Ok? then Ok(Some(b.value)) else Err(b.error);
        }
      } else {
        if cachedBinary.None? {
          cachedBinary := ScanForNul(backing.value.data);
        }
        r := Ok(cachedBinary);
      }
    }
  }

  /** Two reads of `contents` of a file loaded from disk, as a plugin reading a file's
      contents twice makes them: the first loads it, the second sees the same contents
      and loads nothing more. */
  method ReadContentsTwice(f: File) returns (first: Result<Value>, second: Result<Value>)
    requires f.Valid() && f.backing.Some? && !f.loaded
    modifies f
    ensures f.Valid()
    ensures first.Ok? ==> second == first && f.loads == old(f.loads) + 1
    ensures first.Err? ==> f.loads == old(f.loads)
  {
    first := f.Get("contents");
    second := f.Get("contents");
  }
}
