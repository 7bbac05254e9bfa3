/** Names of index sidecar files: `segstore.idx.<id>.<kind>`. */
module Names {
  import opened Base
  import opened Envelope

  const IDX_PREFIX := "segstore.idx."

  // ---------------------------------------------------------------------------
  // Decimal numbers
  // ---------------------------------------------------------------------------

  predicate IsDigit(c: char) { '0' <= c <= '9' }

  function DigitValue(c: char): nat
    requires IsDigit(c)
  {
    c as int - '0' as int
  }

  predicate AllDigits(s: string) { forall i :: 0 <= i < |s| ==> IsDigit(s[i]) }

  function Decimal(n: nat): (s: string)
    ensures s != "" && AllDigits(s)
  {
    var last := [(n % 10 + '0' as int) as char];
    if n < 10 then last else Decimal(n / 10) + last
  }

  function Digits(s: string): nat
    requires AllDigits(s)
  {
    if s == "" then 0 else 10 * Digits(s[..|s| - 1]) + DigitValue(s[|s| - 1])
  }

  /** The integer parser of the source's language: an optional plus sign, then at least
      one digit, within 64 bits. */
  function ParseU64(s: string): Option<U64> {
    var d := if s != "" && s[0] == '+' then s[1..] else s;
    if d != "" && AllDigits(d) && Digits(d) < 0x1_0000_0000_0000_0000 then Some(Digits(d)) else None
  }

  lemma {:induction false} DecimalRoundTrip(n: nat)
    ensures Digits(Decimal(n)) == n
  {
    var s := Decimal(n);
    if n < 10 {
      assert s[..0] == "" && Digits(s) == 10 * Digits(s[..0]) + DigitValue(s[0]);
    } else {
      DecimalRoundTrip(n / 10);
      assert s[..|s| - 1] == Decimal(n / 10);
    }
  }

  // ---------------------------------------------------------------------------
  // Sidecar names
  // ---------------------------------------------------------------------------

  predicate KindChar(c: char) {
    'a' <= c <= 'z' || 'A' <= c <= 'Z' || '0' <= c <= '9' || c == '_' || c == '-'
  }

  predicate ValidKind(kind: string) {
    kind != "" && forall i :: 0 <= i < |kind| ==> KindChar(kind[i])
  }

  /** `index_sidecar_name`; an invalid kind is an error. */
  function IndexName(id: U64, kind: string): Option<string> {
    if ValidKind(kind) then Some(IDX_PREFIX + Decimal(id) + "." + kind) else None
  }

  /** The position of the first `c`, or the length. */
  function FirstOf(s: string, c: char): (i: nat)
    ensures i <= |s| && (forall j :: 0 <= j < i ==> s[j] != c) && (i < |s| ==> s[i] == c)
  {
    if s == "" || s[0] == c then 0 else 1 + FirstOf(s[1..], c)
  }

  /** `idx_seg_id`: the segment id a file name belongs to, if it is an index sidecar. */
  function IdxSegId(name: string): Option<U64> {
    if !(IDX_PREFIX <= name) then None
    else
      var rest := name[|IDX_PREFIX|..];
      var dot := FirstOf(rest, '.');
      if dot == |rest| || rest[dot + 1..] == "" then None else ParseU64(rest[..dot])
  }

  lemma FirstDot(digits: string, kind: string)
    requires AllDigits(digits)
    ensures FirstOf(digits + "." + kind, '.') == |digits|
  {
    var s := digits + "." + kind;
    assert s[|digits|] == '.';
    assert forall j :: 0 <= j < |digits| ==> s[j] == digits[j];
  }

  /** Every name the store gives out is attributed to its own segment. */
  lemma NameRoundTrip(id: U64, kind: string)
    requires ValidKind(kind)
    ensures IdxSegId(IndexName(id, kind).value) == Some(id)
  {
    var name := IndexName(id, kind).value;
    var rest := name[|IDX_PREFIX|..];
    assert rest == Decimal(id) + "." + kind;
    FirstDot(Decimal(id), kind);
    assert rest[..|Decimal(id)|] == Decimal(id) && rest[|Decimal(id)| + 1..] == kind;
    DecimalRoundTrip(id);
    assert Decimal(id)[0] != '+';
  }

  /** Collection attributes a file to segment `id` exactly when its name is the prefix, a
      number that reads as `id`, a dot, and any kind, also one no longer given out. */
  lemma IdxExactly(name: string, id: U64)
    ensures IdxSegId(name) == Some(id) <==>
              exists d: string, kind: string :: name == IDX_PREFIX + d + "." + kind && kind != ""
                                                && '.' !in d && ParseU64(d) == Some(id)
  {
    if IdxSegId(name) == Some(id) { SplitName(name, id); }
    if d: string, kind: string :|
      name == IDX_PREFIX + d + "." + kind && kind != "" && '.' !in d && ParseU64(d) == Some(id)
    {
      JoinedName(d, kind, id);
    }
  }

  lemma SplitName(name: string, id: U64)
    requires IdxSegId(name) == Some(id)
    ensures exists d: string, kind: string :: name == IDX_PREFIX + d + "." + kind && kind != ""
                                              && '.' !in d && ParseU64(d) == Some(id)
  {
    var rest := name[|IDX_PREFIX|..];
    var dot := FirstOf(rest, '.');
    var d, kind := rest[..dot], rest[dot + 1..];
    assert rest == d + "." + kind;
    assert name == IDX_PREFIX + d + "." + kind;
  }

  lemma JoinedName(d: string, kind: string, id: U64)
    requires kind != "" && '.' !in d && ParseU64(d) == Some(id)
    ensures IdxSegId(IDX_PREFIX + d + "." + kind) == Some(id)
  {
    var name := IDX_PREFIX + d + "." + kind;
    var rest := name[|IDX_PREFIX|..];
    assert rest == d + "." + kind;
    DotAfter(d, kind);
    assert rest[..|d|] == d && rest[|d| + 1..] == kind;
  }

  lemma DotAfter(d: string, kind: string)
    requires '.' !in d
    ensures FirstOf(d + "." + kind, '.') == |d|
  {
    var s := d + "." + kind;
    assert s[|d|] == '.' && forall j :: 0 <= j < |d| ==> s[j] == d[j] && s[j] in d;
  }

  /** No two sidecars share a name. */
  lemma NamesInjective(a: U64, k: string, b: U64, l: string)
    requires ValidKind(k) && ValidKind(l) && IndexName(a, k) == IndexName(b, l)
    ensures a == b && k == l
  {
    NameRoundTrip(a, k);
    NameRoundTrip(b, l);
    var head := IDX_PREFIX + Decimal(a) + ".";
    assert (head + k)[|head|..] == k && (head + l)[|head|..] == l;
  }

  // ---------------------------------------------------------------------------
  // Garbage collection by name
  // ---------------------------------------------------------------------------

  const SEG_PREFIX := "segstore.seg."
  const WAL_PREFIX := "segstore.wal."
  const MANIFEST_PATH := "segstore.manifest"

  function SegName(id: U64): string { SEG_PREFIX + Decimal(id) }

  function WalName(epoch: U64): string { WAL_PREFIX + Decimal(epoch) }

  function AfterPrefix(prefix: string, name: string): Option<U64> {
    if prefix <= name then ParseU64(name[|prefix|..]) else None
  }

  /** What `gc_orphan_segments` makes of a listed name: segment files and sidecars whose
      segment is not kept are garbage. */
  predicate Garbage(name: string, keep: set<U64>) {
    var seg := AfterPrefix(SEG_PREFIX, name);
    if seg.Some? then seg.value !in keep
    else
      var idx := IdxSegId(name);
      idx.Some? && idx.value !in keep
  }

  lemma PrefixRoundTrip(prefix: string, id: U64)
    ensures AfterPrefix(prefix, prefix + Decimal(id)) == Some(id)
  {
    assert (prefix + Decimal(id))[|prefix|..] == Decimal(id);
    DecimalRoundTrip(id);
    assert Decimal(id)[0] != '+';
  }

  /** The collection removes exactly the segment files and sidecars of segments that are
      not kept, and never a log or the manifest. */
  lemma GarbageExactly(id: U64, kind: string, keep: set<U64>)
    ensures Garbage(SegName(id), keep) <==> id !in keep
    ensures ValidKind(kind) ==> (Garbage(IndexName(id, kind).value, keep) <==> id !in keep)
    ensures !Garbage(WalName(id), keep) && !Garbage(MANIFEST_PATH, keep)
  {
    PrefixRoundTrip(SEG_PREFIX, id);
    var wal := WalName(id);
    assert wal[9] == 'w' && SEG_PREFIX[9] == 's' && IDX_PREFIX[9] == 'i' && MANIFEST_PATH[9] == 'm';
    if ValidKind(kind) {
      NameRoundTrip(id, kind);
      assert IndexName(id, kind).value[9] == 'i';
    }
  }

  lemma SegNamesInjective(a: U64, b: U64)
    requires SegName(a) == SegName(b) || WalName(a) == WalName(b)
    ensures a == b
  {
    PrefixRoundTrip(SEG_PREFIX, a);
    PrefixRoundTrip(SEG_PREFIX, b);
    PrefixRoundTrip(WAL_PREFIX, a);
    PrefixRoundTrip(WAL_PREFIX, b);
  }
}
