/**
 The text form of a cache value in Redis (src/storage/redis/redis_cache_serialization.cpp).  Expiry is
 kept in whole seconds.
 */
module CachePayload {
  import opened CacheAside
  import opened Clock
  import opened Decimal
  import opened Text
  import opened Wrappers

  /** Successive `getline` calls: an empty piece at the very end is not returned. */
  function Pieces(s: string): seq<string>
    decreases |s|
  {
    if s == "" then [] else
      var (piece, after) := Cut(s, {'|'});
      assert |piece| + |after| == |s|;
      if after == "" then [piece] else [piece] + Pieces(after[1..])
  }

  method Split(input: string) returns (out: seq<string>)
    ensures out == Pieces(input)
  {
    out := [];
    var rest := input;
    while rest != ""
      invariant out + Pieces(rest) == Pieces(input)
      decreases |rest|
    {
      var (piece, after) := Cut(rest, {'|'});
      ghost var before := out;
      out := out + [piece];
      ghost var more := if after == "" then [] else Pieces(after[1..]);
      assert before + ([piece] + more) == out + more;
      rest := if after == "" then "" else after[1..];
    }
  }

  function OptText(n: Option<int>): string {
    if n.Some? then ToText(n.value) else ""
  }

  function Encode(v: CacheValue): string {
    var expires := if v.expiresAt.Some? then Some(WholeSeconds(v.expiresAt.value)) else None;
    var version := if v.version.Some? then Some(v.version.value) else None;
    Layout(if v.isActive then "a=1" else "a=0", "e=" + OptText(expires), "r=" + OptText(version),
           "n=" + ToText(|v.targetUrl|), "u=" + v.targetUrl)
  }

  /** The schema version and five fields, separated by bars. */
  function Layout(a: string, e: string, r: string, n: string, u: string): string {
    "v=1" + ("|" + (a + ("|" + (e + ("|" + (r + ("|" + (n + ("|" + u)))))))))
  }

  /** Decoding the pieces; the checks come in the source's order. */
  function DecodePieces(parts: seq<string>): Option<CacheValue> {
    if |parts| < 6 || parts[0] != "v=1" || (parts[1] != "a=0" && parts[1] != "a=1") then None
    else if !("n=" <= parts[4]) || !("u=" <= parts[5]) || !("e=" <= parts[2]) || !("r=" <= parts[3]) then None
    else
      var exp, ver, url := parts[2][2..], parts[3][2..], parts[5][2..];
      var seconds := if exp == "" then None else ReadSigned(exp);
      var version := if ver == "" then None else ReadUnsigned(ver);
      var n := ReadUnsigned(parts[4][2..]);
      if (exp != "" && seconds.None?) || (ver != "" && version.None?) || n != Some(|url|) then None
      else Some(CacheValue(url, if seconds.Some? then Some(seconds.value * TICKS_PER_SECOND) else None, parts[1] == "a=1", version))
  }

  function Decode(payload: string): Option<CacheValue> {
    DecodePieces(Pieces(payload))
  }

  method DeserializeCacheValue(payload: string) returns (value: Option<CacheValue>)
    ensures value == Decode(payload)
  {
    var parts := Split(payload);
    if |parts| < 6 {
      return None;
    }
    if parts[0] != "v=1" {
      return None;
    }
    if parts[1] != "a=0" && parts[1] != "a=1" {
      return None;
    }
    if !("n=" <= parts[4]) || !("u=" <= parts[5]) {
      return None;
    }
    var isActive := parts[1] == "a=1";
    if !("e=" <= parts[2]) || !("r=" <= parts[3]) {
      return None;
    }
    var expiresAt: Option<int> := None;
    if parts[2][2..] != "" {
      var seconds := ReadSigned(parts[2][2..]);
      if seconds.None? {
        return None;
      }
      expiresAt := Some(seconds.value * TICKS_PER_SECOND);
    }
    var version: Option<nat> := None;
    if parts[3][2..] != "" {
      version := ReadUnsigned(parts[3][2..]);
      if version.None? {
        return None;
      }
    }
    var n := ReadUnsigned(parts[4][2..]);
    if n.None? || n.value != |parts[5][2..]| {
      return None;
    }
    return Some(CacheValue(parts[5][2..], expiresAt, isActive, version));
  }

  /** The pieces of a payload that stands for a value: six of them, and whatever comes after. */
  ghost predicate StandsFor(parts: seq<string>, v: CacheValue, e: string, r: string, n: string) {
    && |parts| >= 6
    && parts[..6] == ["v=1", if v.isActive then "a=1" else "a=0", "e=" + e, "r=" + r, "n=" + n, "u=" + v.targetUrl]
    && (if v.expiresAt.None? then e == "" else e != "" && IsSecondsText(e, v.expiresAt.value))
    && (if v.version.None? then r == "" else r != "" && ReadUnsigned(r) == v.version)
    && ReadUnsigned(n) == Some(|v.targetUrl|)
  }

  /** The text is a number of seconds that makes these ticks. */
  ghost predicate IsSecondsText(e: string, ticks: int) {
    ReadSigned(e).Some? && ticks == ReadSigned(e).value * TICKS_PER_SECOND
  }

  /** A payload decodes to a value exactly when its pieces stand for that value, and is a miss when they stand for none. */
  lemma {:induction false} DecodeExactly(payload: string, v: CacheValue)
    ensures Decode(payload) == Some(v) <==> StandForSome(Pieces(payload), v)
  {
    PiecesDecodeExactly(Pieces(payload), v);
  }

  ghost predicate StandForSome(parts: seq<string>, v: CacheValue) {
    exists e, r, n :: StandsFor(parts, v, e, r, n)
  }

  lemma {:induction false} PiecesDecodeExactly(parts: seq<string>, v: CacheValue)
    ensures DecodePieces(parts) == Some(v) <==> StandForSome(parts, v)
  {
    if DecodePieces(parts) == Some(v) {
      DecodedStands(parts, v);
    } else if StandForSome(parts, v) {
      var e, r, n :| StandsFor(parts, v, e, r, n);
      StandingDecodes(parts, v, e, r, n);
    }
  }

  lemma {:induction false} DecodedStands(parts: seq<string>, v: CacheValue)
    requires DecodePieces(parts) == Some(v)
    ensures StandsFor(parts, v, parts[2][2..], parts[3][2..], parts[4][2..])
  {
    assert parts[2] == "e=" + parts[2][2..] && parts[3] == "r=" + parts[3][2..];
    assert parts[4] == "n=" + parts[4][2..] && parts[5] == "u=" + parts[5][2..];
  }

  lemma {:induction false} StandingDecodes(parts: seq<string>, v: CacheValue, e: string, r: string, n: string)
    requires StandsFor(parts, v, e, r, n)
    ensures DecodePieces(parts) == Some(v)
  {
    var six := parts[..6];
    assert parts[0] == six[0] && parts[1] == six[1] && parts[2] == six[2] && parts[3] == six[3] && parts[4] == six[4] && parts[5] == six[5];
    assert parts[2][2..] == e && parts[3][2..] == r && parts[4][2..] == n && parts[5][2..] == v.targetUrl;
    assert parts[1] == "a=1" <==> v.isActive by {
      assert "a=1"[2] == '1' && "a=0"[2] == '0';
    }
  }

  // ----- encode, then decode -----

  /** Values of the C++ types: 64-bit version and size, and an expiry in 64-bit ticks. */
  predicate Representable(v: CacheValue) {
    && (v.version.Some? ==> v.version.value < TWO_TO_64)
    && (v.expiresAt.Some? ==> -TWO_TO_63 <= v.expiresAt.value < TWO_TO_63)
    && |v.targetUrl| < TWO_TO_64
  }

  function CutToSeconds(v: CacheValue): CacheValue {
    if v.expiresAt.None? then v else v.(expiresAt := Some(WholeSeconds(v.expiresAt.value) * TICKS_PER_SECOND))
  }

  lemma {:induction false} PiecesCons(a: string, rest: string)
    requires NoneOf(a, {'|'})
    ensures Pieces(a + ("|" + rest)) == [a] + Pieces(rest)
  {
    CutUnique(a, "|" + rest, {'|'});
    assert ("|" + rest)[1..] == rest;
  }

  lemma FieldHasNoBar(tag: string, n: Option<int>)
    requires tag == "e=" || tag == "r=" || tag == "n="
    ensures NoneOf(tag + OptText(n), {'|'}) && tag <= tag + OptText(n) && (tag + OptText(n))[2..] == OptText(n)
    ensures OptText(n) == "" <==> n.None?
  {
    if n.Some? {
      TextHasNoBar(n.value);
    }
    NoneOfConcat(tag, OptText(n), {'|'});
  }

  /** The last field, up to the first bar of the URL. */
  lemma {:induction false} UrlPiece(url: string)
    ensures |Pieces("u=" + url)| >= 1 && Pieces("u=" + url)[0] == "u=" + Cut(url, {'|'}).0
  {
    var (head, tail) := Cut(url, {'|'});
    NoneOfConcat("u=", head, {'|'});
    assert "u=" + url == ("u=" + head) + tail;
    CutUnique("u=" + head, tail, {'|'});
  }

  lemma {:induction false} PiecesOfEncoding(a: string, e: string, r: string, n: string, u: string)
    requires NoneOf(a, {'|'}) && NoneOf(e, {'|'}) && NoneOf(r, {'|'}) && NoneOf(n, {'|'})
    ensures Pieces(Layout(a, e, r, n, u)) == ["v=1", a, e, r, n] + Pieces(u)
  {
    var p4 := n + ("|" + u);
    var p3 := r + ("|" + p4);
    var p2 := e + ("|" + p3);
    PiecesCons(n, u);
    PiecesCons(r, p4);
    PiecesCons(e, p3);
    PiecesCons(a, p2);
    PiecesCons("v=1", a + ("|" + p2));
    Five("v=1", a, e, r, n, Pieces(u));
  }

  lemma Five(a: string, b: string, c: string, d: string, e: string, rest: seq<string>)
    ensures [a] + ([b] + ([c] + ([d] + ([e] + rest)))) == [a, b, c, d, e] + rest
  {
  }

  lemma SecondsFit(ticks: int)
    requires -TWO_TO_63 <= ticks < TWO_TO_63
    ensures -TWO_TO_63 <= WholeSeconds(ticks) < TWO_TO_63
  {
  }

  /**
   A stored value never comes back wrong: it comes back with its expiry cut to whole seconds when
   the URL holds no bar, and as a miss otherwise.
   */
  lemma PayloadRoundTrip(v: CacheValue)
    requires Representable(v)
    ensures Decode(Encode(v)) == if '|' in v.targetUrl then None else Some(CutToSeconds(v))
  {
    var expires := if v.expiresAt.Some? then Some(WholeSeconds(v.expiresAt.value)) else None;
    var version := if v.version.Some? then Some(v.version.value) else None;
    var url := v.targetUrl;
    var a := if v.isActive then "a=1" else "a=0";
    var e, r, n := "e=" + OptText(expires), "r=" + OptText(version), "n=" + OptText(Some(|url|));
    FieldHasNoBar("e=", expires);
    FieldHasNoBar("r=", version);
    FieldHasNoBar("n=", Some(|url|));
    PiecesOfEncoding(a, e, r, n, "u=" + url);
    UrlPiece(url);
    DecodeFields(["v=1", a, e, r, n] + Pieces("u=" + url), v, expires, version);
  }

  lemma DecodeFields(parts: seq<string>, v: CacheValue, expires: Option<int>, version: Option<int>)
    requires Representable(v)
    requires expires == if v.expiresAt.Some? then Some(WholeSeconds(v.expiresAt.value)) else None
    requires version == if v.version.Some? then Some(v.version.value) else None
    requires |parts| >= 6 && parts[0] == "v=1" && parts[1] == if v.isActive then "a=1" else "a=0"
    requires parts[2] == "e=" + OptText(expires) && parts[3] == "r=" + OptText(version)
    requires parts[4] == "n=" + OptText(Some(|v.targetUrl|)) && parts[5] == "u=" + Cut(v.targetUrl, {'|'}).0
    ensures DecodePieces(parts) == if '|' in v.targetUrl then None else Some(CutToSeconds(v))
  {
    FieldsRead(v, expires, version);
    var (head, tail) := Cut(v.targetUrl, {'|'});
    assert parts[5][2..] == head;
    assert |head| + |tail| == |v.targetUrl|;
    if tail == "" {
      assert v.targetUrl == head && '|' !in head;
    } else {
      assert v.targetUrl[|head|] == '|';
    }
  }

  lemma FieldsRead(v: CacheValue, expires: Option<int>, version: Option<int>)
    requires Representable(v)
    requires expires == if v.expiresAt.Some? then Some(WholeSeconds(v.expiresAt.value)) else None
    requires version == if v.version.Some? then Some(v.version.value) else None
    ensures ("e=" + OptText(expires))[2..] == OptText(expires) && (OptText(expires) == "" <==> expires.None?)
    ensures ("r=" + OptText(version))[2..] == OptText(version) && (OptText(version) == "" <==> version.None?)
    ensures ("n=" + OptText(Some(|v.targetUrl|)))[2..] == OptText(Some(|v.targetUrl|))
    ensures expires.Some? ==> ReadSigned(OptText(expires)) == expires
    ensures version.Some? ==> ReadUnsigned(OptText(version)) == v.version
    ensures ReadUnsigned(OptText(Some(|v.targetUrl|))) == Some(|v.targetUrl|)
  {
    FieldHasNoBar("e=", expires);
    FieldHasNoBar("r=", version);
    FieldHasNoBar("n=", Some(|v.targetUrl|));
    if expires.Some? {
      SecondsFit(v.expiresAt.value);
      NumbersRoundTrip(expires.value);
    }
    if version.Some? {
      NumbersRoundTrip(version.value);
    }
    NumbersRoundTrip(|v.targetUrl|);
  }

  /**
   What Redis hands back may still stand in for the record it was filled from, so the service over a
   Redis cache is as transparent as over the in-memory one: exactly for expiries that are not before
   the epoch or are whole seconds.
   */
  lemma StoredValueCoversExactly(record: LinkRecord)
    requires Representable(FillValue(record)) && '|' !in record.targetUrl
    ensures Decode(Encode(FillValue(record))).Some?
    ensures Covers(Decode(Encode(FillValue(record))).value, record)
            <==> record.expiresAt.None? || record.expiresAt.value >= 0 || record.expiresAt.value % TICKS_PER_SECOND == 0
  {
    PayloadRoundTrip(FillValue(record));
  }

  /** An expiry one tick before the epoch comes back as the epoch, so the stored value outlives its record. */
  lemma StoredValueBeforeEpochFails(record: LinkRecord)
    requires Representable(FillValue(record)) && '|' !in record.targetUrl && record.expiresAt == Some(-1)
    ensures Decode(Encode(FillValue(record))).Some? && Decode(Encode(FillValue(record))).value.expiresAt == Some(0)
    ensures !Covers(Decode(Encode(FillValue(record))).value, record)
  {
    PayloadRoundTrip(FillValue(record));
  }
}
