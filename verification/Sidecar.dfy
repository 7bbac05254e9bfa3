/** The cache of derived per-segment indexes: memory first, then the sidecar file, then
    a build, keyed by segment id and live ids. */
module Sidecar {
  import opened Base
  import opened Envelope
  import opened Names
  import opened SortedIds

  /** A consumer's index of one segment. */
  type Index(==, !new)

  /** Live ids in canonical order. */
  type LiveIds = s: seq<nat> | Increasing(s) witness []

  datatype SidecarKey = SidecarKey(segment: U64, live: LiveIds)

  /** The consumer's format and acceptance rule, and the checksum of the envelope. */
  datatype Codec = Codec(
    magic: Magic,
    version: U32,
    kind: string,
    recipe: seq<Byte>,
    encode: Index -> Option<seq<Byte>>,
    decode: seq<Byte> -> Option<Index>,
    accepts: (Index, LiveIds) -> bool,
    crc: Crc)

  type Files = map<string, seq<Byte>>
  type Entries = map<SidecarKey, Index>

  datatype SidecarError = BadName | NotEncodable | Framing(error: Error) | Io
  datatype Outcome<+T> = Done(value: T) | Failed(error: SidecarError)

  /** `LiveIds::new`. */
  method NewLiveIds(ids: seq<nat>) returns (live: LiveIds)
    ensures forall other: seq<nat> :: live == Sorted(other) <==> forall x :: x in ids <==> x in other
  {
    live := SortDedup(ids);
    forall other: seq<nat> ensures live == Sorted(other) <==> forall x :: x in ids <==> x in other {
      SameIds(ids, other);
    }
  }

  // ---------------------------------------------------------------------------
  // What one call computes
  // ---------------------------------------------------------------------------

  function TagsOf(codec: Codec, segment: U64): Tags {
    Tags(codec.magic, codec.version, segment, codec.recipe)
  }

  /** The file name of a sidecar. A reader (`known` is its segment list) refuses ids it
      does not show; the writer does not check them. */
  function NameFor(codec: Codec, known: Option<seq<U64>>, segment: U64): Option<string> {
    if known.Some? && segment !in known.value then None else IndexName(segment, codec.kind)
  }

  function LoadFrom(codec: Codec, known: Option<seq<U64>>, files: Files, key: SidecarKey): Option<Index> {
    match NameFor(codec, known, key.segment)
    case None => None
    case Some(name) =>
      if name !in files then None
      else
        match Decode(codec.crc, TagsOf(codec, key.segment), files[name])
        case Err(_) => None
        case Ok(payload) =>
          match codec.decode(payload)
          case None => None
          case Some(index) => if codec.accepts(index, key.live) then Some(index) else None
  }

  function EnvelopeOf(codec: Codec, key: SidecarKey, index: Index): Outcome<seq<Byte>> {
    match codec.encode(index)
    case None => Failed(NotEncodable)
    case Some(payload) =>
      match Encoded(codec.crc, TagsOf(codec, key.segment), payload)
      case Err(e) => Failed(Framing(e))
      case Ok(bytes) => Done(bytes)
  }

  function Without(entries: Entries, segment: U64): Entries {
    map k | k in entries && k.segment != segment :: entries[k]
  }

  function KeptFor(entries: Entries, segments: seq<U64>): Entries {
    map k | k in entries && k.segment in segments :: entries[k]
  }

  function Inserted(entries: Entries, key: SidecarKey, index: Index): Entries {
    Without(entries, key.segment)[key := index]
  }

  /** The answer of `get_or_build`, when loading gives `loaded` and a build `built`. */
  function Answer(entries: Entries, key: SidecarKey, loaded: Option<Index>, built: Option<Index>): Option<Index> {
    if key in entries then Some(entries[key]) else if loaded.Some? then loaded else built
  }

  function EntriesAfter(entries: Entries, key: SidecarKey, answer: Option<Index>): Entries {
    if key in entries || answer.None? then entries else Inserted(entries, key, answer.value)
  }

  /** The key is missing from both, or has the same index in both. */
  predicate SameEntry(before: Entries, after: Entries, key: SidecarKey) {
    (key in before <==> key in after) && (key in before ==> after[key] == before[key])
  }

  ghost predicate OnePerSegment(entries: Entries) {
    forall a, b :: a in entries && b in entries && a.segment == b.segment ==> a == b
  }

  // ---------------------------------------------------------------------------
  // The cache over a directory whose actions may fail
  // ---------------------------------------------------------------------------

  class Host {
    const known: Option<seq<U64>>
    var files: Files

    /** How many actions were refused so far. */
    ghost var faults: nat

    constructor (known: Option<seq<U64>>, files: Files)
      ensures this.known == known && this.files == files
    {
      this.known := known;
      this.files := files;
      faults := 0;
    }

    method Read(name: string) returns (r: Outcome<Option<seq<Byte>>>)
      modifies this`faults
      ensures if faults == old(faults) then r == Done(if name in files then Some(files[name]) else None)
              else r == Failed(Io) && faults == old(faults) + 1
    {
      if name !in files { return Done(None); }
      if * {
        faults := faults + 1;
        return Failed(Io);
      }
      return Done(Some(files[name]));
    }

    /** A refused write may still have taken effect. */
    method Write(name: string, bytes: seq<Byte>) returns (ok: bool)
      modifies this
      ensures files == old(files)[name := bytes] || (!ok && files == old(files))
      ensures faults == if ok then old(faults) else old(faults) + 1
    {
      ok := *;
      if !ok { faults := faults + 1; }
      var lands: bool := *;
      if ok || lands { files := files[name := bytes]; }
    }

    method Delete(name: string) returns (ok: bool)
      modifies this
      ensures files == old(files) - {name} || (!ok && files == old(files))
      ensures faults == if ok then old(faults) else old(faults) + 1
    {
      if name !in files { return true; }
      ok := *;
      if ok { files := files - {name}; } else { faults := faults + 1; }
    }
  }

  /** The build closure of a caller. */
  class Builder {
    /** What building from the segment gives. */
    const gives: Option<Index>

    /** How often it ran. */
    ghost var runs: nat

    constructor (gives: Option<Index>)
      ensures this.gives == gives && runs == 0
    {
      this.gives := gives;
      runs := 0;
    }

    method Run() returns (r: Option<Index>)
      modifies this
      ensures r == gives && runs == old(runs) + 1
    {
      runs := runs + 1;
      return gives;
    }
  }

  class SidecarCache {
    const codec: Codec
    var entries: Entries

    constructor (codec: Codec)
      ensures this.codec == codec && entries == map[]
    {
      this.codec := codec;
      entries := map[];
    }

    /** A refused read counts as a miss. */
    method Load(host: Host, key: SidecarKey) returns (r: Option<Index>)
      modifies host`faults
      ensures if host.faults == old(host.faults) then r == LoadFrom(codec, host.known, host.files, key)
              else r.None? && host.faults > old(host.faults)
      ensures host.known.Some? && key.segment !in host.known.value ==> r.None? && host.faults == old(host.faults)
    {
      var name := NameFor(codec, host.known, key.segment);
      if name.None? { return None; }
      var bytes := host.Read(name.value);
      if bytes.Failed? || bytes.value.None? { return None; }
      var payload := Decode(codec.crc, TagsOf(codec, key.segment), bytes.value.value);
      if payload.Err? { return None; }
      var index := codec.decode(payload.value);
      if index.None? || !codec.accepts(index.value, key.live) { return None; }
      return index;
    }

    /** The segment's earlier entries, for whichever live ids, make room for the new one. */
    method Insert(key: SidecarKey, index: Index)
      modifies this`entries
      ensures key in entries && entries[key] == index
      ensures forall k :: k in entries && k.segment == key.segment ==> k == key
      ensures forall k: SidecarKey :: k.segment != key.segment ==> SameEntry(old(entries), entries, k)
      ensures entries == Inserted(old(entries), key, index)
    {
      entries := map k | k in entries && k.segment != key.segment :: entries[k];
      entries := entries[key := index];
    }

    /** `get_or_build`: the builder runs only when neither memory nor the file answers. */
    method GetOrBuild(host: Host, key: SidecarKey, builder: Builder)
      returns (r: Option<Index>, ghost loaded: Option<Index>)
      modifies this`entries, host`faults, builder
      ensures if host.faults == old(host.faults) then loaded == LoadFrom(codec, host.known, host.files, key)
              else loaded.None? && host.faults > old(host.faults)
      ensures r == Answer(old(entries), key, loaded, builder.gives)
      ensures entries == EntriesAfter(old(entries), key, r)
      ensures key in old(entries) ==> r == Some(old(entries)[key]) && host.faults == old(host.faults)
      ensures key !in old(entries) && loaded.Some? ==> r == loaded
      ensures r.Some? ==> key in entries && entries[key] == r.value
      ensures key in old(entries) || r.None? ==> entries == old(entries)
      ensures key !in old(entries) && r.Some? ==>
                && (forall k :: k in entries && k.segment == key.segment ==> k == key)
                && (forall k: SidecarKey :: k.segment != key.segment ==> SameEntry(old(entries), entries, k))
      ensures OnePerSegment(old(entries)) ==> OnePerSegment(entries)
      ensures builder.runs == old(builder.runs) + if key in old(entries) || loaded.Some? then 0 else 1
    {
      if key in entries { return Some(entries[key]), LoadFrom(codec, host.known, host.files, key); }
      r := Load(host, key);
      loaded := r;
      if r.None? {
        r := builder.Run();
        if r.None? { return; }
      }
      Insert(key, r.value);
    }

    /** The entry goes even when the file cannot be deleted. */
    method Invalidate(host: Host, segment: U64) returns (r: Outcome<()>)
      modifies this`entries, host
      ensures forall k :: k in entries ==> k.segment != segment
      ensures forall k: SidecarKey :: k.segment != segment ==> SameEntry(old(entries), entries, k)
      ensures entries == Without(old(entries), segment)
      ensures var name := NameFor(codec, host.known, segment);
              if name.None? then r == Failed(BadName) && host.files == old(host.files)
              else if host.faults == old(host.faults) then r == Done(()) && host.files == old(host.files) - {name.value}
              else r == Failed(Io) && (host.files == old(host.files) || host.files == old(host.files) - {name.value})
      ensures host.known.Some? && segment !in host.known.value ==> r == Failed(BadName)
    {
      entries := map k | k in entries && k.segment != segment :: entries[k];
      var name := NameFor(codec, host.known, segment);
      if name.None? { return Failed(BadName); }
      var ok := host.Delete(name.value);
      return if ok then Done(()) else Failed(Io);
    }

    method Retain(segments: seq<U64>)
      modifies this`entries
      ensures forall k :: k in entries ==> k.segment in segments
      ensures forall k: SidecarKey :: k.segment in segments ==> SameEntry(old(entries), entries, k)
      ensures entries == KeptFor(old(entries), segments)
    {
      entries := map k | k in entries && k.segment in segments :: entries[k];
    }

    /** Write one entry, replacing any file. */
    method Persist(host: Host, key: SidecarKey) returns (r: Outcome<bool>)
      modifies host
      ensures key !in entries ==> r == Done(false) && host.files == old(host.files)
      ensures key in entries ==>
                var bytes, name := EnvelopeOf(codec, key, entries[key]), NameFor(codec, host.known, key.segment);
                if bytes.Failed? then r == Failed(bytes.error) && host.files == old(host.files)
                else if name.None? then r == Failed(BadName) && host.files == old(host.files)
                else if host.faults == old(host.faults) then
                  r == Done(true) && host.files == old(host.files)[name.value := bytes.value]
                else r == Failed(Io) && (host.files == old(host.files)
                                         || host.files == old(host.files)[name.value := bytes.value])
      ensures host.known.Some? && key.segment !in host.known.value ==>
                host.files == old(host.files) && !(r.Done? && r.value)
    {
      if key !in entries { return Done(false); }
      var bytes := EnvelopeOf(codec, key, entries[key]);
      if bytes.Failed? { return Failed(bytes.error); }
      var name := NameFor(codec, host.known, key.segment);
      if name.None? { return Failed(BadName); }
      var ok := host.Write(name.value, bytes.value);
      return if ok then Done(true) else Failed(Io);
    }

    /** Write one entry unless it has a file; tells whether it wrote one. */
    method PersistIfMissing(host: Host, key: SidecarKey) returns (r: Outcome<bool>)
      requires key in entries
      modifies host
      ensures Writes(old(host.files), host.files, codec, host.known, entries, {key})
      ensures forall n :: n in old(host.files) ==> n in host.files && host.files[n] == old(host.files)[n]
      ensures r.Done? ==> host.faults == old(host.faults)
                          && |host.files| == |old(host.files)| + if r.value then 1 else 0
      ensures r.Done? ==> var name := NameFor(codec, host.known, key.segment); name.Some? && name.value in host.files
      ensures r.Failed? ==> (r.error == Io && host.faults > old(host.faults))
                            || Unwritable(codec, host.known, key, entries[key], r.error)
    {
      var name := NameFor(codec, host.known, key.segment);
      if name.None? { return Failed(BadName); }
      if name.value in host.files { return Done(false); }
      var bytes := EnvelopeOf(codec, key, entries[key]);
      if bytes.Failed? { return Failed(bytes.error); }
      GrowsByOne(host.files, name.value, bytes.value);
      var ok := host.Write(name.value, bytes.value);
      return if ok then Done(true) else Failed(Io);
    }

    /** Write every entry of the given segments that has no file, whatever the order in
        which the entries are visited; existing files are left untouched. */
    method PersistMissing(host: Host, segments: seq<U64>) returns (r: Outcome<nat>)
      modifies host
      ensures Writes(old(host.files), host.files, codec, host.known, entries, Pending(entries, segments))
      ensures forall n :: n in old(host.files) ==> n in host.files && host.files[n] == old(host.files)[n]
      ensures r.Done? ==> |host.files| == |old(host.files)| + r.value
      ensures r.Done? ==> forall k :: k in Pending(entries, segments) ==>
                            var name := NameFor(codec, host.known, k.segment); name.Some? && name.value in host.files
      ensures r.Failed? ==> (r.error == Io && host.faults > old(host.faults))
                            || exists k :: k in Pending(entries, segments)
                                           && Unwritable(codec, host.known, k, entries[k], r.error)
    {
      var rest := set k | k in entries && k.segment in segments;
      var written: nat := 0;
      while rest != {}
        invariant rest <= Pending(entries, segments) && host.faults == old(host.faults)
        invariant Writes(old(host.files), host.files, codec, host.known, entries, Pending(entries, segments))
        invariant forall n :: n in old(host.files) ==> n in host.files && host.files[n] == old(host.files)[n]
        invariant |host.files| == |old(host.files)| + written
        invariant forall k :: k in Pending(entries, segments) - rest ==>
                    var name := NameFor(codec, host.known, k.segment); name.Some? && name.value in host.files
        decreases |rest|
      {
        var key :| key in rest;
        rest := rest - {key};
        ghost var before := host.files;
        var one := PersistIfMissing(host, key);
        WritesMore(old(host.files), before, host.files, codec, host.known, entries, Pending(entries, segments), key);
        if one.Failed? { return Failed(one.error); }
        if one.value { written := written + 1; }
      }
      return Done(written);
    }
  }

  /** The entry cannot become a file, whatever the disk does. */
  predicate Unwritable(codec: Codec, known: Option<seq<U64>>, key: SidecarKey, index: Index, error: SidecarError) {
    if NameFor(codec, known, key.segment).None? then error == BadName
    else EnvelopeOf(codec, key, index) == Failed(error)
  }

  function Pending(entries: Entries, segments: seq<U64>): set<SidecarKey> {
    set k | k in entries && k.segment in segments
  }

  /** Every file that changed is the envelope of one of the given entries. */
  ghost predicate Writes(before: Files, after: Files, codec: Codec, known: Option<seq<U64>>, entries: Entries,
                         keys: set<SidecarKey>)
  {
    && (forall n :: n in before ==> n in after)
    && forall n :: n in after && !(n in before && before[n] == after[n]) ==>
         exists k :: k in keys && k in entries && NameFor(codec, known, k.segment) == Some(n)
                     && EnvelopeOf(codec, k, entries[k]) == Done(after[n])
  }

  lemma WritesMore(a: Files, b: Files, c: Files, codec: Codec, known: Option<seq<U64>>, entries: Entries,
                   keys: set<SidecarKey>, key: SidecarKey)
    requires Writes(a, b, codec, known, entries, keys) && Writes(b, c, codec, known, entries, {key}) && key in keys
    ensures Writes(a, c, codec, known, entries, keys)
  {
    forall n | n in c && !(n in a && a[n] == c[n])
      ensures exists k :: k in keys && k in entries && NameFor(codec, known, k.segment) == Some(n)
                          && EnvelopeOf(codec, k, entries[k]) == Done(c[n])
    {
      if n in b && b[n] == c[n] { assert !(n in a && a[n] == b[n]); }
    }
  }

  lemma GrowsByOne(files: Files, name: string, bytes: seq<Byte>)
    requires name !in files
    ensures |files[name := bytes]| == |files| + 1
  {
    var grown := files[name := bytes];
    assert grown.Keys == files.Keys + {name};
    assert |grown| == |grown.Keys| && |files| == |files.Keys|;
  }

  // ---------------------------------------------------------------------------
  // Transparency
  // ---------------------------------------------------------------------------

  /** Everything that can happen to the cache. `Disk` replaces the files: it covers
      persisting, deleting, tearing and tampering. */
  datatype CacheEvent =
    | Get(key: SidecarKey, loaded: Option<Index>, built: Option<Index>)
    | Invalidate(segment: U64)
    | Retain(segments: seq<U64>)
    | Disk(files: Files)

  datatype CacheState = CacheState(entries: Entries, files: Files)

  /** A consumer: its codec, the segments its host shows, what an undisturbed build for
      a key gives, and which payloads can turn up in a well-formed file of a segment. */
  datatype Consumer = Consumer(
    codec: Codec,
    known: Option<seq<U64>>,
    build: SidecarKey -> Option<Index>,
    trusted: (U64, seq<Byte>) -> bool)

  function NextCache(s: CacheState, e: CacheEvent): CacheState {
    match e
    case Get(key, loaded, built) => s.(entries := EntriesAfter(s.entries, key, Answer(s.entries, key, loaded, built)))
    case Invalidate(segment) => s.(entries := Without(s.entries, segment))
    case Retain(segments) => s.(entries := KeptFor(s.entries, segments))
    case Disk(files) => s.(files := files)
  }

  function CacheAfter(events: seq<CacheEvent>): CacheState {
    if events == [] then CacheState(map[], map[])
    else NextCache(CacheAfter(events[..|events| - 1]), events[|events| - 1])
  }

  /** Every file that passes the envelope check of its segment holds a trusted payload. */
  ghost predicate FilesTrusted(c: Consumer, files: Files) {
    forall segment: U64 ::
      var name := NameFor(c.codec, c.known, segment);
      name.Some? && name.value in files && Decode(c.codec.crc, TagsOf(c.codec, segment), files[name.value]).Ok?
      ==> c.trusted(segment, Decode(c.codec.crc, TagsOf(c.codec, segment), files[name.value]).value)
  }

  /** A load may fail at any time, and so may a build. */
  ghost predicate Possible(s: CacheState, e: CacheEvent, c: Consumer) {
    && (e.Get? ==>
          && (e.loaded.None? || e.loaded == LoadFrom(c.codec, c.known, s.files, e.key))
          && (e.built.None? || e.built == c.build(e.key)))
    && (e.Disk? ==> FilesTrusted(c, e.files))
  }

  ghost predicate PossibleRun(events: seq<CacheEvent>, c: Consumer) {
    events == [] ||
    (PossibleRun(events[..|events| - 1], c)
     && Possible(CacheAfter(events[..|events| - 1]), events[|events| - 1], c))
  }

  /** On trusted payloads the acceptance rule approves only what a fresh build would give. */
  ghost predicate Sound(c: Consumer) {
    forall payload, key: SidecarKey ::
      c.trusted(key.segment, payload) && c.codec.decode(payload).Some?
      && c.codec.accepts(c.codec.decode(payload).value, key.live)
      ==> c.codec.decode(payload) == c.build(key)
  }

  ghost predicate AllFresh(entries: Entries, build: SidecarKey -> Option<Index>) {
    forall k :: k in entries ==> build(k) == Some(entries[k])
  }

  lemma LoadIsFresh(c: Consumer, files: Files, key: SidecarKey)
    requires Sound(c) && FilesTrusted(c, files)
    ensures var r := LoadFrom(c.codec, c.known, files, key); r.Some? ==> r == c.build(key)
  {
  }

  ghost predicate CacheOk(s: CacheState, c: Consumer) {
    OnePerSegment(s.entries) && AllFresh(s.entries, c.build) && FilesTrusted(c, s.files)
  }

  /** A lookup answers with the fresh build, or not at all when the build failed. */
  ghost predicate AnsweredRight(s: CacheState, e: CacheEvent, c: Consumer) {
    e.Get? ==>
      var r := Answer(s.entries, e.key, e.loaded, e.built);
      (r.Some? ==> r == c.build(e.key)) && (r.None? ==> e.built.None?)
  }

  lemma CacheStep(s: CacheState, e: CacheEvent, c: Consumer)
    requires Sound(c) && CacheOk(s, c) && Possible(s, e, c)
    ensures CacheOk(NextCache(s, e), c) && AnsweredRight(s, e, c)
  {
    if e.Get? { LoadIsFresh(c, s.files, e.key); }
  }

  /** With a sound acceptance rule, in every interleaving, each answer is the fresh
      build, it is missing only when the build fails, and no segment ever has two
      entries. With every payload trusted, this holds whatever the files contain. */
  lemma {:induction false} Transparent(events: seq<CacheEvent>, c: Consumer)
    requires Sound(c) && PossibleRun(events, c)
    ensures CacheOk(CacheAfter(events), c)
    ensures forall i :: 0 <= i < |events| ==> AnsweredRight(CacheAfter(events[..i]), events[i], c)
  {
    if events != [] {
      var n := |events| - 1;
      var init := events[..n];
      Transparent(init, c);
      CacheStep(CacheAfter(init), events[n], c);
      forall i | 0 <= i <= n ensures AnsweredRight(CacheAfter(events[..i]), events[i], c) {
        if i < n { assert init[i] == events[i] && init[..i] == events[..i]; }
      }
    }
  }

  /** The event leaves the entry of `key` in memory. */
  predicate Spares(e: CacheEvent, key: SidecarKey) {
    match e
    case Get(other, _, _) => other == key || other.segment != key.segment
    case Invalidate(segment) => segment != key.segment
    case Retain(segments) => key.segment in segments
    case Disk(_) => true
  }

  /** An answered lookup is cached: until its segment is invalidated, evicted or looked up
      for other live ids, every further lookup of the key is answered from memory with the
      same index, whatever the files hold and without a load or a build. */
  lemma {:induction false} StaysCached(events: seq<CacheEvent>, key: SidecarKey, loaded: Option<Index>,
                                       built: Option<Index>, more: seq<CacheEvent>)
    requires Answer(CacheAfter(events).entries, key, loaded, built).Some?
    requires forall i :: 0 <= i < |more| ==> Spares(more[i], key)
    ensures var r := Answer(CacheAfter(events).entries, key, loaded, built).value;
            var later := CacheAfter(events + [Get(key, loaded, built)] + more).entries;
            && key in later && later[key] == r
            && forall l, b :: Answer(later, key, l, b) == Some(r)
    decreases |more|
  {
    var first := events + [Get(key, loaded, built)];
    assert first[..|events|] == events;
    if more == [] {
      assert first + more == first;
    } else {
      var init := more[..|more| - 1];
      StaysCached(events, key, loaded, built, init);
      assert (first + more)[..|first + more| - 1] == first + init;
      assert Spares(more[|more| - 1], key);
    }
  }

  // ---------------------------------------------------------------------------
  // When the files hold only what caches persisted
  // ---------------------------------------------------------------------------

  /** The payload encodes what a build for some live set of the segment gives. */
  ghost predicate IsBuilt(codec: Codec, build: SidecarKey -> Option<Index>, segment: U64, payload: seq<Byte>) {
    exists key: SidecarKey ::
      key.segment == segment && build(key).Some? && codec.encode(build(key).value) == Some(payload)
  }

  ghost predicate TrustsBuilt(c: Consumer) {
    forall s: U64, p :: c.trusted(s, p) <==> IsBuilt(c.codec, c.build, s, p)
  }

  /** Then the rule only has to tell the live sets of one segment apart. */
  lemma BuiltIsSound(c: Consumer)
    requires TrustsBuilt(c)
    requires forall k :: c.build(k).Some? && c.codec.encode(c.build(k).value).Some? ==>
                           c.codec.decode(c.codec.encode(c.build(k).value).value) == c.build(k)
    requires forall k: SidecarKey, key: SidecarKey ::
               k.segment == key.segment && c.build(k).Some? && c.codec.accepts(c.build(k).value, key.live)
               ==> c.build(k) == c.build(key)
    ensures Sound(c)
  {
  }

  /** Persisting, of one entry or of all missing ones, whole or cut short, keeps the
      files trusted. */
  lemma PersistingKeepsTrust(c: Consumer, files: Files, files': Files, entries: Entries, keys: set<SidecarKey>)
    requires TrustsBuilt(c) && FilesTrusted(c, files) && AllFresh(entries, c.build)
    requires Writes(files, files', c.codec, c.known, entries, keys)
    ensures FilesTrusted(c, files')
  {
    forall segment: U64 |
      var name := NameFor(c.codec, c.known, segment);
      name.Some? && name.value in files' && Decode(c.codec.crc, TagsOf(c.codec, segment), files'[name.value]).Ok?
      ensures c.trusted(segment,
                        Decode(c.codec.crc, TagsOf(c.codec, segment),
                               files'[NameFor(c.codec, c.known, segment).value]).value)
    {
      var n := NameFor(c.codec, c.known, segment).value;
      if !(n in files && files[n] == files'[n]) {
        var k :| k in keys && k in entries && NameFor(c.codec, c.known, k.segment) == Some(n)
                 && EnvelopeOf(c.codec, k, entries[k]) == Done(files'[n]);
        NamesInjective(segment, c.codec.kind, k.segment, c.codec.kind);
        DecodeEncoded(c.codec.crc, TagsOf(c.codec, segment), c.codec.encode(entries[k]).value);
        assert IsBuilt(c.codec, c.build, segment, c.codec.encode(entries[k]).value);
      }
    }
  }

  // ---------------------------------------------------------------------------
  // Persisting and loading
  // ---------------------------------------------------------------------------

  /** A persisted entry is what the next cache loads, and no other segment's sidecar is
      affected. */
  lemma PersistThenLoad(codec: Codec, known: Option<seq<U64>>, files: Files, key: SidecarKey, index: Index,
                        other: SidecarKey)
    requires EnvelopeOf(codec, key, index).Done? && NameFor(codec, known, key.segment).Some?
    requires codec.decode(codec.encode(index).value) == Some(index) && codec.accepts(index, key.live)
    ensures var files' := files[NameFor(codec, known, key.segment).value := EnvelopeOf(codec, key, index).value];
            && LoadFrom(codec, known, files', key) == Some(index)
            && (other.segment != key.segment ==>
                  LoadFrom(codec, known, files', other) == LoadFrom(codec, known, files, other))
  {
    DecodeEncoded(codec.crc, TagsOf(codec, key.segment), codec.encode(index).value);
    var name := NameFor(codec, known, other.segment);
    if other.segment != key.segment && name == NameFor(codec, known, key.segment) {
      NamesInjective(key.segment, codec.kind, other.segment, codec.kind);
      assert false;
    }
  }

  /** A sidecar copied to the name of another segment is never loaded. */
  lemma MisnamedIsRejected(codec: Codec, known: Option<seq<U64>>, files: Files, key: SidecarKey, index: Index,
                           other: SidecarKey)
    requires EnvelopeOf(codec, key, index).Done? && other.segment != key.segment
    requires var name := NameFor(codec, known, other.segment);
             name.Some? && name.value in files && files[name.value] == EnvelopeOf(codec, key, index).value
    ensures LoadFrom(codec, known, files, other) == None
  {
    OwnTagsOnly(codec.crc, TagsOf(codec, key.segment), TagsOf(codec, other.segment), codec.encode(index).value);
  }
}
