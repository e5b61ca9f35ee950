/**
 The two-pass asset translation of server.c: the first pass predicts the size of every
 translated file, the second writes the files one behind the other into one allocation.
 */
module Translation {
  import opened Words
  import opened Types

  const TR_KEY_MARKER: byte := 64

  datatype Entry = Entry(key: seq<byte>, value: seq<byte>)

  /** `memcmp(data + i, key)` over readable memory. */
  predicate MatchesAt(data: seq<byte>, i: nat, key: seq<byte>) {
    i + |key| <= |data| && data[i..i + |key|] == key
  }

  /** The first entry whose key stands at position `i`. */
  function FirstMatch(data: seq<byte>, i: nat, entries: seq<Entry>): (r: Option<Entry>)
    ensures r.Some? ==> r.value in entries && MatchesAt(data, i, r.value.key)
    ensures r.None? ==> forall e :: e in entries ==> !MatchesAt(data, i, e.key)
  {
    if entries == [] then None
    else if MatchesAt(data, i, entries[0].key) then Some(entries[0])
    else FirstMatch(data, i, entries[1..])
  }

  /** What the scan does at position `i`: only a marker can start a key. */
  function Hit(data: seq<byte>, i: nat, entries: seq<Entry>): (r: Option<Entry>)
    requires i < |data|
    ensures r.Some? ==> r.value in entries && data[i] == TR_KEY_MARKER
  {
    if data[i] == TR_KEY_MARKER then FirstMatch(data, i, entries) else None
  }

  /** Memory the passes may touch is readable: the file is the first `size` bytes of `data`, and behind every
      marker in it the longest key and the byte after it fit. A file without markers near its end needs no
      byte behind it. */
  ghost predicate Readable(data: seq<byte>, size: nat, entries: seq<Entry>) {
    && size <= |data|
    && forall i, e :: 0 <= i < size && data[i] == TR_KEY_MARKER && e in entries ==> i + |e.key| < |data|
  }

  /** The bytes the second pass writes from position `i` on. The byte behind a key is copied unseen. */
  ghost function Written(data: seq<byte>, size: nat, entries: seq<Entry>, i: nat): seq<byte>
    requires Readable(data, size, entries)
    decreases size - i
  {
    if i >= size then []
    else match Hit(data, i, entries)
      case None => [data[i]] + Written(data, size, entries, i + 1)
      case Some(e) => e.value + [data[i + |e.key|]] + Written(data, size, entries, i + |e.key| + 1)
  }

  /** The size the first pass adds up from position `i` on, starting from `ret`. */
  ghost function Predicted(data: seq<byte>, size: nat, entries: seq<Entry>, i: nat, ret: int): int
    requires Readable(data, size, entries)
    decreases size - i
  {
    if i >= size then ret
    else match Hit(data, i, entries)
      case None => Predicted(data, size, entries, i + 1, ret)
      case Some(e) => Predicted(data, size, entries, i + |e.key| + 1, ret - |e.key| + |e.value|)
  }

  /** Where the scan stops. */
  ghost function End(data: seq<byte>, size: nat, entries: seq<Entry>, i: nat): (n: nat)
    requires Readable(data, size, entries)
    ensures n >= size && n >= i
    decreases size - i
  {
    if i >= size then i
    else match Hit(data, i, entries)
      case None => End(data, size, entries, i + 1)
      case Some(e) => End(data, size, entries, i + |e.key| + 1)
  }

  /** Some key the scan meets ends at or past the end of the file. */
  ghost predicate Overruns(data: seq<byte>, size: nat, entries: seq<Entry>, i: nat)
    requires Readable(data, size, entries)
    decreases size - i
  {
    i < size && match Hit(data, i, entries)
      case None => Overruns(data, size, entries, i + 1)
      case Some(e) => i + |e.key| >= size || Overruns(data, size, entries, i + |e.key| + 1)
  }

  /** The scan stops at the end of the file exactly when no key it meets reaches that end. */
  lemma {:induction false} EndIsExact(data: seq<byte>, size: nat, entries: seq<Entry>, i: nat)
    requires Readable(data, size, entries) && i <= size
    ensures End(data, size, entries, i) == size <==> !Overruns(data, size, entries, i)
    decreases size - i
  {
    hide Hit, FirstMatch, MatchesAt;
    if i < size {
      match Hit(data, i, entries)
      case None => EndIsExact(data, size, entries, i + 1);
      case Some(e) =>
        if i + |e.key| < size {
          EndIsExact(data, size, entries, i + |e.key| + 1);
        }
    }
  }

  /** The second pass writes what was predicted, and as much more as its scan runs past the end. */
  lemma {:induction false} WrittenLength(data: seq<byte>, size: nat, entries: seq<Entry>, i: nat, ret: int)
    requires Readable(data, size, entries)
    ensures |Written(data, size, entries, i)| ==
            Predicted(data, size, entries, i, ret) - ret + End(data, size, entries, i) - i
    decreases size - i
  {
    hide Hit, FirstMatch, MatchesAt, Written;
    WrittenIs(data, size, entries, i);
    if i < size {
      match Hit(data, i, entries)
      case None => WrittenLength(data, size, entries, i + 1, ret);
      case Some(e) => WrittenLength(data, size, entries, i + |e.key| + 1, ret - |e.key| + |e.value|);
    }
  }

  /** The two passes agree on a file exactly when no key the scan meets ends at or past its end. */
  lemma PassesAgreeIff(data: seq<byte>, size: nat, entries: seq<Entry>)
    requires Readable(data, size, entries)
    ensures |Written(data, size, entries, 0)| == Predicted(data, size, entries, 0, size) <==>
            !Overruns(data, size, entries, 0)
    ensures |Written(data, size, entries, 0)| >= Predicted(data, size, entries, 0, size)
  {
    WrittenLength(data, size, entries, 0, size);
    EndIsExact(data, size, entries, 0);
  }

  /** They do disagree: a file that is nothing but a key makes the second pass write a byte too many. */
  lemma KeyAtEndOverruns()
    ensures exists data, entries :: Readable(data, 3, entries) && Keyed(entries) && Plain(entries)
              && |Written(data, 3, entries, 0)| == Predicted(data, 3, entries, 0, 3) + 1
  {
    var key: seq<byte> := [64, 65, 64];
    var entries := [Entry(key, [66])];
    var data: seq<byte> := key + [0, 0, 0];
    assert data[0..3] == key;
    assert MatchesAt(data, 0, key);
    assert Hit(data, 0, entries) == Some(entries[0]);
    WrittenLength(data, 3, entries, 0, 3);
    assert End(data, 3, entries, 0) == 4;
  }

  /** One step of the scan. */
  lemma WrittenIs(data: seq<byte>, size: nat, entries: seq<Entry>, i: nat)
    requires Readable(data, size, entries)
    ensures Written(data, size, entries, i) ==
            if i >= size then []
            else match Hit(data, i, entries)
              case None => [data[i]] + Written(data, size, entries, i + 1)
              case Some(e) => e.value + [data[i + |e.key|]] + Written(data, size, entries, i + |e.key| + 1)
  {
  }

  // ---------- entry order ----------

  /** A key as the translation generator writes them: a name without markers between two markers. */
  ghost predicate IsKey(key: seq<byte>) {
    && |key| >= 2 && key[0] == TR_KEY_MARKER && key[|key| - 1] == TR_KEY_MARKER
    && forall i :: 0 < i < |key| - 1 ==> key[i] != TR_KEY_MARKER
  }

  /** Entries are keyed: every key well formed, no two entries with the same key. */
  ghost predicate Keyed(entries: seq<Entry>) {
    && (forall e :: e in entries ==> IsKey(e.key))
    && (forall e, f :: e in entries && f in entries && e.key == f.key ==> e == f)
  }

  /** No well-formed key is a prefix of another: two that match at one place are the same. */
  lemma KeysDoNotOverlap(data: seq<byte>, i: nat, k: seq<byte>, l: seq<byte>)
    requires IsKey(k) && IsKey(l) && MatchesAt(data, i, k) && MatchesAt(data, i, l)
    ensures k == l
  {
    assert |k| <= |l| ==> k[|k| - 1] == data[i + |k| - 1] == l[|k| - 1];
    assert |l| <= |k| ==> l[|l| - 1] == data[i + |l| - 1] == k[|l| - 1];
  }

  ghost predicate SameEntries(entries: seq<Entry>, entries': seq<Entry>) {
    forall e :: e in entries <==> e in entries'
  }

  lemma HitIgnoresOrder(data: seq<byte>, i: nat, entries: seq<Entry>, entries': seq<Entry>)
    requires i < |data| && Keyed(entries) && SameEntries(entries, entries')
    ensures Hit(data, i, entries) == Hit(data, i, entries')
  {
    var r, r' := FirstMatch(data, i, entries), FirstMatch(data, i, entries');
    if r.Some? && r'.Some? {
      KeysDoNotOverlap(data, i, r.value.key, r'.value.key);
    }
  }

  /** Reordering the entries does not change what is written. */
  lemma {:induction false} OrderDoesNotMatter(data: seq<byte>, size: nat, entries: seq<Entry>, entries': seq<Entry>,
                                              i: nat)
    requires Readable(data, size, entries) && Readable(data, size, entries')
    requires Keyed(entries) && SameEntries(entries, entries')
    ensures Written(data, size, entries, i) == Written(data, size, entries', i)
    decreases size - i
  {
    hide Hit, FirstMatch, MatchesAt, Keyed, SameEntries, Written;
    WrittenIs(data, size, entries, i);
    WrittenIs(data, size, entries', i);
    if i < size {
      HitIgnoresOrder(data, i, entries, entries');
      match Hit(data, i, entries)
      case None => OrderDoesNotMatter(data, size, entries, entries', i + 1);
      case Some(e) => OrderDoesNotMatter(data, size, entries, entries', i + |e.key| + 1);
    }
  }

  // ---------- against the ideal replacement ----------

  /** The key of `e` stands at position `i`. */
  ghost predicate StandsAt(data: seq<byte>, i: nat, e: Entry) {
    i + |e.key| <= |data| && data[i..i + |e.key|] == e.key
  }

  /** Every key replaced by its value, everything else kept. */
  ghost function Replaced(data: seq<byte>, size: nat, entries: seq<Entry>, i: nat): seq<byte>
    requires size <= |data| && Keyed(entries)
    decreases size - i
  {
    if i >= size then []
    else if e :| e in entries && StandsAt(data, i, e) then e.value + Replaced(data, size, entries, i + |e.key|)
    else [data[i]] + Replaced(data, size, entries, i + 1)
  }

  /** A key that stands at a position is found there, and nothing else is. */
  lemma HitIff(data: seq<byte>, i: nat, entries: seq<Entry>, e: Entry)
    requires i < |data| && Keyed(entries)
    ensures Hit(data, i, entries) == Some(e) <==>
              e in entries && i + |e.key| <= |data| && data[i..i + |e.key|] == e.key
    ensures Hit(data, i, entries) == None <==>
              forall f :: f in entries ==> !(i + |f.key| <= |data| && data[i..i + |f.key|] == f.key)
  {
    forall f | f in entries && i + |f.key| <= |data| && data[i..i + |f.key|] == f.key
      ensures Hit(data, i, entries) == Some(f)
    {
      assert data[i] == data[i..i + |f.key|][0] == TR_KEY_MARKER;
      var h := FirstMatch(data, i, entries);
      assert MatchesAt(data, i, f.key);
      KeysDoNotOverlap(data, i, h.value.key, f.key);
    }
  }

  /** Of several entries that match, the first one is found. */
  lemma {:induction false} FirstIsFound(data: seq<byte>, i: nat, entries: seq<Entry>, j: nat)
    requires j < |entries| && i + |entries[j].key| <= |data| && data[i..i + |entries[j].key|] == entries[j].key
    requires forall k :: 0 <= k < j ==>
               !(i + |entries[k].key| <= |data| && data[i..i + |entries[k].key|] == entries[k].key)
    ensures FirstMatch(data, i, entries) == Some(entries[j])
  {
    if j > 0 {
      var rest := entries[1..];
      assert rest[j - 1] == entries[j] && forall k :: 0 <= k < j - 1 ==> rest[k] == entries[k + 1];
      FirstIsFound(data, i, rest, j - 1);
    }
  }

  lemma ReplacedIs(data: seq<byte>, size: nat, entries: seq<Entry>, i: nat)
    requires size <= |data| && Keyed(entries)
    ensures Replaced(data, size, entries, i) ==
            if i >= size then []
            else match Hit(data, i, entries)
              case None => [data[i]] + Replaced(data, size, entries, i + 1)
              case Some(e) => e.value + Replaced(data, size, entries, i + |e.key|)
  {
    hide Hit, Keyed, StandsAt, Replaced;
    if i < size {
      match Hit(data, i, entries)
      case None =>
        NoneStands(data, i, entries);
        ReplacedMiss(data, size, entries, i);
      case Some(e) =>
        FoundStands(data, i, entries, e);
        ReplacedHit(data, size, entries, i, e);
    } else {
      ReplacedEnd(data, size, entries, i);
    }
  }

  lemma ReplacedEnd(data: seq<byte>, size: nat, entries: seq<Entry>, i: nat)
    requires size <= |data| && Keyed(entries) && i >= size
    ensures Replaced(data, size, entries, i) == []
  {
  }

  lemma ReplacedMiss(data: seq<byte>, size: nat, entries: seq<Entry>, i: nat)
    requires i < size <= |data| && Keyed(entries) && forall f :: f in entries ==> !StandsAt(data, i, f)
    ensures Replaced(data, size, entries, i) == [data[i]] + Replaced(data, size, entries, i + 1)
  {
    hide StandsAt, Keyed;
  }

  lemma ReplacedHit(data: seq<byte>, size: nat, entries: seq<Entry>, i: nat, e: Entry)
    requires i < size <= |data| && Keyed(entries) && e in entries && StandsAt(data, i, e)
    ensures Replaced(data, size, entries, i) == e.value + Replaced(data, size, entries, i + |e.key|)
  {
    OnlyOneStands(data, i, entries, e);
    hide StandsAt, Keyed;
  }

  lemma NoneStands(data: seq<byte>, i: nat, entries: seq<Entry>)
    requires i < |data| && Keyed(entries) && Hit(data, i, entries) == None
    ensures forall f :: f in entries ==> !StandsAt(data, i, f)
  {
    hide Hit, Keyed;
    HitIff(data, i, entries, Entry([], []));
  }

  lemma FoundStands(data: seq<byte>, i: nat, entries: seq<Entry>, e: Entry)
    requires i < |data| && Keyed(entries) && Hit(data, i, entries) == Some(e)
    ensures e in entries && StandsAt(data, i, e)
  {
    hide Hit, Keyed;
    HitIff(data, i, entries, e);
  }

  lemma OnlyOneStands(data: seq<byte>, i: nat, entries: seq<Entry>, e: Entry)
    requires i < |data| && Keyed(entries) && e in entries && StandsAt(data, i, e)
    ensures forall f :: f in entries && StandsAt(data, i, f) ==> f == e
  {
    forall f | f in entries && StandsAt(data, i, f)
      ensures f == e
    {
      HitIff(data, i, entries, e);
      HitIff(data, i, entries, f);
    }
  }

  /** No key the scan meets is directly followed by another one or by the end of the file. */
  ghost predicate Separated(data: seq<byte>, size: nat, entries: seq<Entry>, i: nat)
    requires Readable(data, size, entries)
    decreases size - i
  {
    i < size ==> match Hit(data, i, entries)
      case None => Separated(data, size, entries, i + 1)
      case Some(e) =>
          i + |e.key| < size && Hit(data, i + |e.key|, entries).None? && Separated(data, size, entries, i + |e.key| + 1)
  }

  /** In a file whose keys are separated, every key is replaced. */
  lemma {:induction false} SeparatedIsReplaced(data: seq<byte>, size: nat, entries: seq<Entry>, i: nat)
    requires Readable(data, size, entries) && Keyed(entries) && Separated(data, size, entries, i)
    ensures Written(data, size, entries, i) == Replaced(data, size, entries, i)
    decreases size - i
  {
    hide Hit, FirstMatch, MatchesAt, Keyed, Written, Replaced;
    WrittenIs(data, size, entries, i);
    ReplacedIs(data, size, entries, i);
    if i < size {
      match Hit(data, i, entries)
      case None => SeparatedIsReplaced(data, size, entries, i + 1);
      case Some(e) =>
        var next := i + |e.key|;
        SeparatedIsReplaced(data, size, entries, next + 1);
        ReplacedIs(data, size, entries, next);
        assert e.value + [data[next]] + Replaced(data, size, entries, next + 1)
            == e.value + ([data[next]] + Replaced(data, size, entries, next + 1));
    }
  }

  /** Values as the translations have them: not empty, and not starting with a marker. */
  ghost predicate Plain(entries: seq<Entry>) {
    forall e :: e in entries ==> e.value != [] && e.value[0] != TR_KEY_MARKER
  }

  /** With such values, every key is replaced exactly in the files whose keys are separated. */
  lemma {:induction false} ReplacedIff(data: seq<byte>, size: nat, entries: seq<Entry>, i: nat)
    requires Readable(data, size, entries) && Keyed(entries) && Plain(entries)
    ensures Written(data, size, entries, i) == Replaced(data, size, entries, i) <==> Separated(data, size, entries, i)
    decreases size - i
  {
    hide Hit, FirstMatch, MatchesAt, Keyed, Written, Replaced;
    WrittenIs(data, size, entries, i);
    ReplacedIs(data, size, entries, i);
    if i < size {
      match Hit(data, i, entries)
      case None =>
        ReplacedIff(data, size, entries, i + 1);
        SameBehind([data[i]], Written(data, size, entries, i + 1), Replaced(data, size, entries, i + 1));
      case Some(e) =>
        var next := i + |e.key|;
        var w, r := Written(data, size, entries, next + 1), Replaced(data, size, entries, next);
        assert e.value + [data[next]] + w == e.value + ([data[next]] + w);
        SameBehind(e.value, [data[next]] + w, r);
        NextIff(data, size, entries, next);
        ReplacedIff(data, size, entries, next + 1);
    }
  }

  /** The byte behind a key is right exactly when no key starts there. */
  lemma NextIff(data: seq<byte>, size: nat, entries: seq<Entry>, next: nat)
    requires Readable(data, size, entries) && Keyed(entries) && Plain(entries) && next < |data|
    ensures [data[next]] + Written(data, size, entries, next + 1) == Replaced(data, size, entries, next)
       <==> && next < size && Hit(data, next, entries).None?
            && Written(data, size, entries, next + 1) == Replaced(data, size, entries, next + 1)
  {
    hide FirstMatch, MatchesAt, Keyed, Written, Replaced;
    ReplacedIs(data, size, entries, next);
    var w := Written(data, size, entries, next + 1);
    if next < size {
      match Hit(data, next, entries)
      case None => SameBehind([data[next]], w, Replaced(data, size, entries, next + 1));
      case Some(f) =>
        assert ([data[next]] + w)[0] == TR_KEY_MARKER;
        assert (f.value + Replaced(data, size, entries, next + |f.key|))[0] == f.value[0];
    } else {
      assert |[data[next]] + w| > 0;
    }
  }

  lemma SameBehind(p: seq<byte>, s: seq<byte>, t: seq<byte>)
    ensures p + s == p + t <==> s == t
  {
    if p + s == p + t {
      assert (p + s)[|p|..] == s && (p + t)[|p|..] == t;
    }
  }

  /** A stretch without markers is copied. */
  lemma {:induction false} PlainTextIsCopied(data: seq<byte>, size: nat, entries: seq<Entry>, i: nat, j: nat)
    requires Readable(data, size, entries) && i <= j <= size && forall k :: i <= k < j ==> data[k] != TR_KEY_MARKER
    ensures Written(data, size, entries, i) == data[i..j] + Written(data, size, entries, j)
    decreases j - i
  {
    hide Written, MatchesAt;
    if i < j {
      PlainTextIsCopied(data, size, entries, i + 1, j);
      NoMarkerIsCopied(data, size, entries, i);
      assert data[i..j] == [data[i]] + data[i + 1..j];
      Regroup([], [data[i]], data[i + 1..j], Written(data, size, entries, j));
    } else {
      assert data[i..j] == [];
    }
  }

  lemma NoMarkerIsCopied(data: seq<byte>, size: nat, entries: seq<Entry>, i: nat)
    requires Readable(data, size, entries) && i < size && data[i] != TR_KEY_MARKER
    ensures Written(data, size, entries, i) == [data[i]] + Written(data, size, entries, i + 1)
  {
    hide FirstMatch;
  }

  /** A key `f` directly behind another one is not translated: it is copied up to its closing marker, and the
      scan goes on with that marker. */
  lemma AdjacentKeyIsMissed(data: seq<byte>, size: nat, entries: seq<Entry>, i: nat, e: Entry, f: Entry)
    requires Readable(data, size, entries) && Keyed(entries) && i < size && Hit(data, i, entries) == Some(e)
    requires i + |e.key| + |f.key| <= size && Hit(data, i + |e.key|, entries) == Some(f)
    ensures var close := i + |e.key| + |f.key| - 1;
            Written(data, size, entries, i) == e.value + f.key[..|f.key| - 1] + Written(data, size, entries, close)
  {
    hide Keyed, Hit, FirstMatch, MatchesAt, Written, IsKey, Readable;
    var next := i + |e.key|;
    FileIsInMemory(data, size, entries);
    WrittenHit(data, size, entries, i, e);
    HitIsKey(data, next, entries, f);
    KeyText(data, next, f.key);
    KeyIsCopied(data, size, entries, next, f.key);
    Regroup(e.value, [data[next]], data[next + 1..next + |f.key| - 1],
            Written(data, size, entries, next + |f.key| - 1));
  }

  lemma FileIsInMemory(data: seq<byte>, size: nat, entries: seq<Entry>)
    requires Readable(data, size, entries)
    ensures size <= |data|
  {
  }

  lemma WrittenHit(data: seq<byte>, size: nat, entries: seq<Entry>, i: nat, e: Entry)
    requires Readable(data, size, entries) && i < size <= |data| && Hit(data, i, entries) == Some(e)
    ensures i + |e.key| < |data|
    ensures Written(data, size, entries, i) ==
            e.value + [data[i + |e.key|]] + Written(data, size, entries, i + |e.key| + 1)
  {
    hide Hit, FirstMatch, MatchesAt;
  }

  /** Behind its opening marker a key is plain text up to its closing one. */
  lemma KeyIsCopied(data: seq<byte>, size: nat, entries: seq<Entry>, i: nat, key: seq<byte>)
    requires Readable(data, size, entries) && i + |key| <= size <= |data| && |key| >= 2
    requires forall k :: i < k < i + |key| - 1 ==> data[k] != TR_KEY_MARKER
    ensures Written(data, size, entries, i + 1)
         == data[i + 1..i + |key| - 1] + Written(data, size, entries, i + |key| - 1)
  {
    hide Written, Readable;
    PlainTextIsCopied(data, size, entries, i + 1, i + |key| - 1);
  }

  lemma HitIsKey(data: seq<byte>, i: nat, entries: seq<Entry>, f: Entry)
    requires i < |data| && Keyed(entries) && Hit(data, i, entries) == Some(f)
    ensures MatchesAt(data, i, f.key) && IsKey(f.key)
  {
  }

  /** Between the markers of a key there is none. */
  lemma KeyText(data: seq<byte>, i: nat, key: seq<byte>)
    requires MatchesAt(data, i, key) && IsKey(key)
    ensures |key| >= 2 && i + |key| <= |data|
    ensures forall k :: i < k < i + |key| - 1 ==> data[k] != TR_KEY_MARKER
    ensures key[..|key| - 1] == [data[i]] + data[i + 1..i + |key| - 1]
  {
    forall k | i < k < i + |key| - 1
      ensures data[k] != TR_KEY_MARKER
    {
      assert data[k] == key[k - i];
    }
  }

  lemma Regroup(a: seq<byte>, b: seq<byte>, c: seq<byte>, d: seq<byte>)
    ensures a + b + (c + d) == a + (b + c) + d
  {
  }

  /** So there are files in which a key stays untranslated: "@A@@A@" and a line feed. */
  lemma SomeKeysAreMissed()
    ensures exists data, entries :: Readable(data, 7, entries) && Keyed(entries) && Plain(entries)
              && !Overruns(data, 7, entries, 0) && Written(data, 7, entries, 0) != Replaced(data, 7, entries, 0)
  {
    hide *;
    var entries: seq<Entry> := [Entry([64, 65, 64], [66])];
    var data: seq<byte> := [64, 65, 64, 64, 65, 64, 10, 0, 0, 0];
    FileIsReadable(data, entries);
    HitsOf(data, entries);
    ScanOf(data, entries);
    ReplacedIff(data, 7, entries, 0);
  }

  lemma FileIsReadable(data: seq<byte>, entries: seq<Entry>)
    requires |data| == 10 && entries == [Entry([64, 65, 64], [66])]
    ensures Readable(data, 7, entries) && Keyed(entries) && Plain(entries)
  {
  }

  /** The scan of that file: the second key stands directly behind the first. */
  lemma ScanOf(data: seq<byte>, entries: seq<Entry>)
    requires Readable(data, 7, entries) && entries == [Entry([64, 65, 64], [66])]
    requires Hit(data, 0, entries) == Some(entries[0]) && Hit(data, 3, entries) == Some(entries[0])
    requires Hit(data, 4, entries).None? && Hit(data, 5, entries).None? && Hit(data, 6, entries).None?
    ensures !Separated(data, 7, entries, 0) && !Overruns(data, 7, entries, 0)
  {
    hide Hit, FirstMatch, MatchesAt, Readable;
    assert !Overruns(data, 7, entries, 7);
    assert !Overruns(data, 7, entries, 6);
    assert !Overruns(data, 7, entries, 5);
    assert !Overruns(data, 7, entries, 4);
  }

  lemma HitsOf(data: seq<byte>, entries: seq<Entry>)
    requires data == [64, 65, 64, 64, 65, 64, 10, 0, 0, 0] && entries == [Entry([64, 65, 64], [66])]
    ensures Hit(data, 0, entries) == Some(entries[0]) && Hit(data, 3, entries) == Some(entries[0])
    ensures Hit(data, 4, entries).None? && Hit(data, 5, entries).None? && Hit(data, 6, entries).None?
  {
    assert data[0..3] == [64, 65, 64] && data[3..6] == [64, 65, 64];
    assert data[5..8][1] == 10;
    assert !MatchesAt(data, 5, [64, 65, 64]);
  }

  // ---------- the two passes ----------

  /** The inner loop over the entries. */
  method FindEntry(data: seq<byte>, i: nat, entries: seq<Entry>) returns (found: Option<Entry>)
    ensures found == FirstMatch(data, i, entries)
  {
    var j := 0;
    while j < |entries|
      invariant 0 <= j <= |entries|
      invariant FirstMatch(data, i, entries) == FirstMatch(data, i, entries[j..])
    {
      if MatchesAt(data, i, entries[j].key) {
        return Some(entries[j]);
      }
      assert entries[j..][1..] == entries[j + 1..];
      j := j + 1;
    }
    return None;
  }

  /** First pass: the size the translated file will have. */
  method GetTranslatedFileSize(data: seq<byte>, size: nat, entries: seq<Entry>) returns (ret: int)
    requires Readable(data, size, entries)
    ensures ret == Predicted(data, size, entries, 0, size)
  {
    hide Hit, FirstMatch, MatchesAt;
    ret := size;
    var ptr := 0;
    while ptr < size
      invariant 0 <= ptr
      invariant Predicted(data, size, entries, 0, size) == Predicted(data, size, entries, ptr, ret)
    {
      var found := HitAt(data, ptr, entries);
      if found.Some? {
        ret := ret - |found.value.key| + |found.value.value|;
        ptr := ptr + |found.value.key|;
      }
      ptr := ptr + 1;
    }
  }

  /** Second pass: writes the translated file at `start`. */
  method TranslateFile(data: seq<byte>, size: nat, entries: seq<Entry>, out: array<byte>, start: nat) returns (ret: int)
    requires Readable(data, size, entries) && start + |Written(data, size, entries, 0)| <= out.Length
    modifies out
    ensures ret == Predicted(data, size, entries, 0, size)
    ensures out[start..start + |Written(data, size, entries, 0)|] == Written(data, size, entries, 0)
    ensures out[..start] == old(out[..start])
  {
    hide Hit, FirstMatch, MatchesAt;
    ret := size;
    var inPtr, outPtr := 0, start;
    ghost var w := Written(data, size, entries, 0);
    while inPtr < size
      invariant 0 <= inPtr && start <= outPtr <= start + |w|
      invariant Predicted(data, size, entries, 0, size) == Predicted(data, size, entries, inPtr, ret)
      invariant w == out[start..outPtr] + Written(data, size, entries, inPtr)
      invariant out[..start] == old(out[..start])
    {
      var found := HitAt(data, inPtr, entries);
      WrittenStep(data, size, entries, inPtr, out[start..outPtr], w);
      if found.Some? {
        inPtr := inPtr + |found.value.key|;
        ret := ret - |found.value.key| + |found.value.value|;
        outPtr := PutPiece(out, start, outPtr, found.value.value, data[inPtr]);
      } else {
        outPtr := PutPiece(out, start, outPtr, [], data[inPtr]);
      }
      inPtr := inPtr + 1;
    }
  }

  /** Writes a value and the byte that follows it, behind what was written since `start`. */
  method PutPiece(out: array<byte>, start: nat, pos: nat, value: seq<byte>, next: byte) returns (end: nat)
    requires start <= pos && pos + |value| < out.Length
    modifies out
    ensures end == pos + |value| + 1 && out[start..end] == old(out[start..pos]) + value + [next]
    ensures out[..start] == old(out[..start])
  {
    CopyTo(out, pos, value);
    ghost var before := out[..pos + |value|];
    end := pos + |value| + 1;
    out[end - 1] := next;
    assert out[..end] == before + [next];
    assert before[..pos] == old(out[..pos]) && before[pos..] == value;
  }

  /** Looks for a key at `i`, as both passes do. */
  method HitAt(data: seq<byte>, i: nat, entries: seq<Entry>) returns (found: Option<Entry>)
    requires i < |data|
    ensures found == Hit(data, i, entries)
    ensures found.Some? ==> found.value in entries
  {
    found := None;
    if data[i] == TR_KEY_MARKER {
      found := FindEntry(data, i, entries);
    }
  }

  lemma WrittenStep(data: seq<byte>, size: nat, entries: seq<Entry>, i: nat, done: seq<byte>, w: seq<byte>)
    requires Readable(data, size, entries) && i < size && w == done + Written(data, size, entries, i)
    ensures match Hit(data, i, entries)
            case None => w == done + [] + [data[i]] + Written(data, size, entries, i + 1)
            case Some(e) => w == done + e.value + [data[i + |e.key|]] + Written(data, size, entries, i + |e.key| + 1)
  {
    hide Hit, FirstMatch, MatchesAt, Written, Readable;
    FileIsInMemory(data, size, entries);
    WrittenIs(data, size, entries, i);
    match Hit(data, i, entries)
    case None => Flatten(done, [], [data[i]], Written(data, size, entries, i + 1));
    case Some(e) =>
      WrittenHit(data, size, entries, i, e);
      Flatten(done, e.value, [data[i + |e.key|]], Written(data, size, entries, i + |e.key| + 1));
  }

  lemma Flatten(a: seq<byte>, b: seq<byte>, c: seq<byte>, d: seq<byte>)
    ensures a + (b + c + d) == a + b + c + d && [] + c + d == c + d
  {
  }

  /** `memcpy` into the output. */
  method CopyTo(out: array<byte>, pos: nat, s: seq<byte>)
    requires pos + |s| <= out.Length
    modifies out
    ensures out[pos..pos + |s|] == s
    ensures out[..pos] == old(out[..pos])
  {
    forall i | 0 <= i < |s| {
      out[pos + i] := s[i];
    }
  }

  datatype Asset = Asset(data: seq<byte>, size: nat)

  /** Every file can be scanned with every language's entries. */
  ghost predicate AllReadable(assets: seq<Asset>, langs: seq<seq<Entry>>) {
    forall i, j :: 0 <= i < |langs| && 0 <= j < |assets| ==> Readable(assets[j].data, assets[j].size, langs[i])
  }

  /** In no file and no language does a key reach the file's end. */
  ghost predicate NoneOverruns(assets: seq<Asset>, langs: seq<seq<Entry>>)
    requires AllReadable(assets, langs)
  {
    forall i, j :: 0 <= i < |langs| && 0 <= j < |assets| ==> !Overruns(assets[j].data, assets[j].size, langs[i], 0)
  }

  ghost function WrittenFile(a: Asset, entries: seq<Entry>): seq<byte>
    requires Readable(a.data, a.size, entries)
  {
    Written(a.data, a.size, entries, 0)
  }

  ghost function PredictedFile(a: Asset, entries: seq<Entry>): int
    requires Readable(a.data, a.size, entries)
  {
    Predicted(a.data, a.size, entries, 0, a.size)
  }

  /** All translated files of the languages before `i`, and the first `j` files of language `i`. */
  ghost function Copies(assets: seq<Asset>, langs: seq<seq<Entry>>, i: nat, j: nat): seq<byte>
    requires AllReadable(assets, langs) && j <= |assets| && i <= |langs| && (i == |langs| ==> j == 0)
    decreases i, j
  {
    if j > 0 then Copies(assets, langs, i, j - 1) + WrittenFile(assets[j - 1], langs[i])
    else if i > 0 then Copies(assets, langs, i - 1, |assets|)
    else []
  }

  /** The predictions for the same files, added up. */
  ghost function PredictedSum(assets: seq<Asset>, langs: seq<seq<Entry>>, i: nat, j: nat): int
    requires AllReadable(assets, langs) && j <= |assets| && i <= |langs| && (i == |langs| ==> j == 0)
    decreases i, j
  {
    if j > 0 then PredictedSum(assets, langs, i, j - 1) + PredictedFile(assets[j - 1], langs[i])
    else if i > 0 then PredictedSum(assets, langs, i - 1, |assets|)
    else 0
  }

  /** File `j` of language `i` comes before file `q` of language `p`. */
  ghost predicate Earlier(i: nat, j: nat, p: nat, q: nat) {
    i < p || (i == p && j < q)
  }

  ghost predicate NoneOverrunsBefore(assets: seq<Asset>, langs: seq<seq<Entry>>, p: nat, q: nat)
    requires AllReadable(assets, langs)
  {
    forall i, j :: 0 <= i < |langs| && 0 <= j < |assets| && Earlier(i, j, p, q) ==>
      !Overruns(assets[j].data, assets[j].size, langs[i], 0)
  }

  /** The copies need at least the predicted room, and exactly that when no key reaches a file's end. */
  lemma {:induction false} CopiesLength(assets: seq<Asset>, langs: seq<seq<Entry>>, i: nat, j: nat)
    requires AllReadable(assets, langs) && j <= |assets| && i <= |langs| && (i == |langs| ==> j == 0)
    ensures |Copies(assets, langs, i, j)| >= PredictedSum(assets, langs, i, j)
    ensures |Copies(assets, langs, i, j)| == PredictedSum(assets, langs, i, j) <==>
            NoneOverrunsBefore(assets, langs, i, j)
    decreases i, j
  {
    hide Written, Predicted, Overruns, Readable;
    if j > 0 {
      CopiesLength(assets, langs, i, j - 1);
      PassesAgreeIff(assets[j - 1].data, assets[j - 1].size, langs[i]);
    } else if i > 0 {
      CopiesLength(assets, langs, i - 1, |assets|);
    }
  }

  /** The allocation made from the predictions is exactly filled by the copies if and only if in no file and
      no language a key reaches the file's end; otherwise it is too small. */
  lemma CopiesFitIff(assets: seq<Asset>, langs: seq<seq<Entry>>)
    requires AllReadable(assets, langs)
    ensures |Copies(assets, langs, |langs|, 0)| >= PredictedSum(assets, langs, |langs|, 0)
    ensures |Copies(assets, langs, |langs|, 0)| == PredictedSum(assets, langs, |langs|, 0) <==>
            NoneOverruns(assets, langs)
  {
    hide Copies, PredictedSum, Overruns, Readable;
    CopiesLength(assets, langs, |langs|, 0);
    if NoneOverrunsBefore(assets, langs, |langs|, 0) {
      forall i, j | 0 <= i < |langs| && 0 <= j < |assets|
        ensures !Overruns(assets[j].data, assets[j].size, langs[i], 0)
      {
        assert Earlier(i, j, |langs|, 0);
      }
    }
  }

  /** Later copies come behind earlier ones. */
  lemma {:induction false} CopiesGrow(assets: seq<Asset>, langs: seq<seq<Entry>>, i: nat, j: nat)
    requires AllReadable(assets, langs) && j <= |assets| && i < |langs|
    ensures |Copies(assets, langs, i, j)| <= |Copies(assets, langs, |langs|, 0)|
    decreases |langs| - i, |assets| - j
  {
    hide AllReadable, WrittenFile;
    if j < |assets| {
      CopiesGrow(assets, langs, i, j + 1);
    } else if i + 1 < |langs| {
      CopiesGrow(assets, langs, i + 1, 0);
    }
  }

  lemma Fits(assets: seq<Asset>, langs: seq<seq<Entry>>, i: nat, j: nat)
    requires AllReadable(assets, langs) && NoneOverruns(assets, langs) && i < |langs| && j < |assets|
    ensures Readable(assets[j].data, assets[j].size, langs[i])
    ensures |WrittenFile(assets[j], langs[i])| == PredictedFile(assets[j], langs[i])
    ensures Copies(assets, langs, i, j + 1) == Copies(assets, langs, i, j) + WrittenFile(assets[j], langs[i])
    ensures |Copies(assets, langs, i, j + 1)| <= |Copies(assets, langs, |langs|, 0)|
  {
    PassesAgreeIff(assets[j].data, assets[j].size, langs[i]);
    CopiesGrow(assets, langs, i, j + 1);
  }

  /** Where a translated file lies in the allocation. */
  datatype Place = Place(off: nat, size: nat)

  ghost predicate Holds(m: seq<byte>, p: Place, w: seq<byte>) {
    p.off + p.size <= |m| && m[p.off..p.off + p.size] == w
  }

  /** The first `j` files of one language lie at their places. */
  ghost predicate RowHolds(m: seq<byte>, row: seq<Place>, assets: seq<Asset>, entries: seq<Entry>, j: nat) {
    && |row| == j <= |assets|
    && forall k :: 0 <= k < j ==> Readable(assets[k].data, assets[k].size, entries)
                                  && Holds(m, row[k], WrittenFile(assets[k], entries))
  }

  /** All files of the first `i` languages do. */
  ghost predicate TableHolds(m: seq<byte>, table: seq<seq<Place>>, assets: seq<Asset>, langs: seq<seq<Entry>>, i: nat) {
    && |table| == i <= |langs|
    && forall k :: 0 <= k < i ==> RowHolds(m, table[k], assets, langs[k], |assets|)
  }

  /** What lies in written memory stays there while more is written behind it. */
  lemma RowHoldsLater(m: seq<byte>, m': seq<byte>, row: seq<Place>, assets: seq<Asset>, entries: seq<Entry>, j: nat)
    requires RowHolds(m, row, assets, entries, j) && m <= m'
    ensures RowHolds(m', row, assets, entries, j)
  {
    hide WrittenFile, Readable;
    forall k | 0 <= k < j
      ensures Holds(m', row[k], m[row[k].off..row[k].off + row[k].size])
    {
    }
  }

  lemma TableHoldsLater(m: seq<byte>, m': seq<byte>, table: seq<seq<Place>>, assets: seq<Asset>,
                        langs: seq<seq<Entry>>, i: nat)
    requires TableHolds(m, table, assets, langs, i) && m <= m'
    ensures TableHolds(m', table, assets, langs, i)
  {
    hide RowHolds;
    forall k | 0 <= k < i
      ensures RowHolds(m', table[k], assets, langs[k], |assets|)
    {
      RowHoldsLater(m, m', table[k], assets, langs[k], |assets|);
    }
  }

  lemma RowGrows(m: seq<byte>, row: seq<Place>, assets: seq<Asset>, entries: seq<Entry>, j: nat, p: Place)
    requires RowHolds(m, row, assets, entries, j) && j < |assets| && Readable(assets[j].data, assets[j].size, entries)
    requires Holds(m, p, WrittenFile(assets[j], entries))
    ensures RowHolds(m, row + [p], assets, entries, j + 1)
  {
    hide WrittenFile, Readable;
  }

  lemma TableGrows(m: seq<byte>, table: seq<seq<Place>>, assets: seq<Asset>, langs: seq<seq<Entry>>, i: nat,
                   row: seq<Place>)
    requires TableHolds(m, table, assets, langs, i) && i < |langs| && RowHolds(m, row, assets, langs[i], |assets|)
    ensures TableHolds(m, table + [row], assets, langs, i + 1)
  {
    hide RowHolds;
  }

  lemma NothingHeld(m: seq<byte>, assets: seq<Asset>, langs: seq<seq<Entry>>, entries: seq<Entry>)
    ensures TableHolds(m, [], assets, langs, 0) && RowHolds(m, [], assets, entries, 0)
  {
  }

  /** Adds up the predicted sizes, allocates once, and writes every copy: they exactly fill the memory, and
      the table says of every language and file where its translation lies. */
  method TranslateAssets(assets: seq<Asset>, langs: seq<seq<Entry>>)
      returns (memory: array<byte>, table: seq<seq<Place>>)
    requires AllReadable(assets, langs) && NoneOverruns(assets, langs)
    ensures fresh(memory) && memory[..] == Copies(assets, langs, |langs|, 0)
    ensures TableHolds(memory[..], table, assets, langs, |langs|)
  {
    hide AllReadable, NoneOverruns, Written, Predicted, Copies, PredictedSum, Readable, TableHolds, RowHolds;
    NoCopies(assets, langs);
    var total := PredictAll(assets, langs);
    CopiesFitIff(assets, langs);
    memory := new byte[total];
    table := [];
    var dataPtr := 0;
    var i := 0;
    NothingHeld(memory[..0], assets, langs, []);
    while i < |langs|
      invariant 0 <= i <= |langs| && fresh(memory) && memory.Length == |Copies(assets, langs, |langs|, 0)|
      invariant dataPtr == |Copies(assets, langs, i, 0)| <= memory.Length
      invariant memory[..dataPtr] == Copies(assets, langs, i, 0)
      invariant TableHolds(memory[..dataPtr], table, assets, langs, i)
    {
      var row := [];
      var j := 0;
      NothingHeld(memory[..dataPtr], assets, langs, langs[i]);
      while j < |assets|
        invariant 0 <= j <= |assets|
        invariant dataPtr == |Copies(assets, langs, i, j)| <= memory.Length
        invariant memory[..dataPtr] == Copies(assets, langs, i, j)
        invariant TableHolds(memory[..dataPtr], table, assets, langs, i)
        invariant RowHolds(memory[..dataPtr], row, assets, langs[i], j)
      {
        ghost var before := memory[..dataPtr];
        Fits(assets, langs, i, j);
        var size := TranslateFile(assets[j].data, assets[j].size, langs[i], memory, dataPtr);
        ghost var after := memory[..dataPtr + size];
        assert after == before + memory[dataPtr..dataPtr + size];
        TableHoldsLater(before, after, table, assets, langs, i);
        RowHoldsLater(before, after, row, assets, langs[i], j);
        RowGrows(after, row, assets, langs[i], j, Place(dataPtr, size));
        row := row + [Place(dataPtr, size)];
        dataPtr := dataPtr + size;
        j := j + 1;
      }
      TableGrows(memory[..dataPtr], table, assets, langs, i, row);
      table := table + [row];
      NextLanguage(assets, langs, i);
      i := i + 1;
    }
    assert memory[..dataPtr] == memory[..];
  }

  lemma NoCopies(assets: seq<Asset>, langs: seq<seq<Entry>>)
    requires AllReadable(assets, langs)
    ensures Copies(assets, langs, 0, 0) == [] && PredictedSum(assets, langs, 0, 0) == 0
  {
  }

  lemma NextLanguage(assets: seq<Asset>, langs: seq<seq<Entry>>, i: nat)
    requires AllReadable(assets, langs) && i < |langs|
    ensures Copies(assets, langs, i + 1, 0) == Copies(assets, langs, i, |assets|)
    ensures PredictedSum(assets, langs, i + 1, 0) == PredictedSum(assets, langs, i, |assets|)
  {
  }

  lemma NextFile(assets: seq<Asset>, langs: seq<seq<Entry>>, i: nat, j: nat)
    requires AllReadable(assets, langs) && i < |langs| && j < |assets|
    ensures Readable(assets[j].data, assets[j].size, langs[i])
    ensures PredictedSum(assets, langs, i, j + 1) ==
            PredictedSum(assets, langs, i, j) + PredictedFile(assets[j], langs[i])
  {
  }

  /** The first pass over all languages and files. */
  method PredictAll(assets: seq<Asset>, langs: seq<seq<Entry>>) returns (total: int)
    requires AllReadable(assets, langs)
    ensures total == PredictedSum(assets, langs, |langs|, 0)
  {
    hide AllReadable, Predicted, PredictedSum, Readable;
    NoCopies(assets, langs);
    total := 0;
    var i := 0;
    while i < |langs|
      invariant 0 <= i <= |langs| && total == PredictedSum(assets, langs, i, 0)
    {
      var j := 0;
      while j < |assets|
        invariant 0 <= j <= |assets| && total == PredictedSum(assets, langs, i, j)
      {
        NextFile(assets, langs, i, j);
        var size := GetTranslatedFileSize(assets[j].data, assets[j].size, langs[i]);
        total := total + size;
        j := j + 1;
      }
      NextLanguage(assets, langs, i);
      i := i + 1;
    }
  }
}
