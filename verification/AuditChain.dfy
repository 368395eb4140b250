/**
 The hash-chained audit log: canonical event text, the rules `verify_chain` checks, and
 what an intact chain says about the events that were written.
 */
module AuditChain {
  import opened Options
  import opened HashChain

  const SEPARATOR: char := '\U{0001}'
  const HASHED_FIELDS: nat := 15

  /** The predecessor hash of the very first event: 64 zeros. */
  function GenesisHash(): (r: string)
    ensures |r| == 64 && forall i :: 0 <= i < |r| ==> r[i] == '0'
  {
    seq(64, _ => '0')
  }

  /** Library code the log relies on. Instants are nanoseconds since the epoch. */
  datatype Library = Library(hash: string -> string, parse: string -> Option<int>, format: int -> string)

  datatype AuditEvent = AuditEvent(
    actorUserId: Option<string>,
    actorUserCode: Option<string>,
    actorRole: Option<string>,
    action: string,
    requestId: string,
    caseReference: Option<string>,
    resourceType: Option<string>,
    resourceId: Option<string>,
    result: string,
    source: Option<string>,
    ipAddress: Option<string>,
    userAgent: Option<string>,
    metadata: Option<string>,
    organizationId: Option<string>,
    organizationUnitId: Option<string>)

  /** The stored columns of a row other than its id and sequence number. */
  datatype Entry = Entry(timestamp: string, event: AuditEvent, previousHash: Option<string>,
    eventHash: Option<string>) {
    function Previous(): string { previousHash.GetOr("") }

    function Hash(): string { eventHash.GetOr("") }
  }

  // ----- library laws -----

  predicate SeparatorFree(s: string) {
    SEPARATOR !in s
  }

  function TruncateToMicros(t: int): int {
    t - t % 1000
  }

  ghost predicate LawfulHash(hash: string -> string) {
    && (forall s, t :: hash(s) == hash(t) ==> s == t)
    && (forall s :: hash(s) != GenesisHash() && SeparatorFree(hash(s)))
  }

  /** Formatting keeps microseconds, writes no separator, and parsing undoes it. */
  ghost predicate LawfulClock(lib: Library) {
    && (forall t :: SeparatorFree(lib.format(t)) && lib.parse(lib.format(t)) == Some(TruncateToMicros(t)))
    && (forall t, u :: TruncateToMicros(t) == TruncateToMicros(u) ==> lib.format(t) == lib.format(u))
  }

  ghost predicate Lawful(lib: Library) {
    LawfulHash(lib.hash) && LawfulClock(lib)
  }

  // ----- canonical text -----

  function HashedFields(lib: Library, previousHash: string, timestamp: int, e: AuditEvent): (fields: seq<string>)
    ensures |fields| == HASHED_FIELDS
  {
    [previousHash, lib.format(timestamp), e.actorUserId.GetOr(""), e.actorUserCode.GetOr(""), e.actorRole.GetOr(""),
     e.action, e.requestId, e.caseReference.GetOr(""), e.resourceType.GetOr(""), e.resourceId.GetOr(""), e.result,
     e.source.GetOr(""), e.ipAddress.GetOr(""), e.userAgent.GetOr(""), e.metadata.GetOr("")]
  }

  function Join(fields: seq<string>): string {
    if |fields| == 0 then ""
    else if |fields| == 1 then fields[0]
    else fields[0] + [SEPARATOR] + Join(fields[1..])
  }

  function CanonicalEventString(lib: Library, previousHash: string, timestamp: int, e: AuditEvent): string {
    Join(HashedFields(lib, previousHash, timestamp, e))
  }

  function Separators(s: string): nat {
    if s == "" then 0 else (if s[0] == SEPARATOR then 1 else 0) + Separators(s[1..])
  }

  function AllSeparators(fields: seq<string>): nat {
    if fields == [] then 0 else Separators(fields[0]) + AllSeparators(fields[1..])
  }

  lemma {:induction false} SeparatorsOfConcat(s: string, t: string)
    ensures Separators(s + t) == Separators(s) + Separators(t)
  {
    if s == "" {
      assert s + t == t;
    } else {
      assert (s + t)[1..] == s[1..] + t;
      SeparatorsOfConcat(s[1..], t);
    }
  }

  lemma {:induction false} NoSeparators(s: string)
    ensures Separators(s) == 0 <==> SeparatorFree(s)
  {
    if s != "" {
      NoSeparators(s[1..]);
      assert s == [s[0]] + s[1..];
    }
  }

  lemma {:induction false} SeparatorsOfJoin(fields: seq<string>)
    requires fields != []
    ensures Separators(Join(fields)) == |fields| - 1 + AllSeparators(fields)
  {
    if |fields| > 1 {
      SeparatorsOfJoin(fields[1..]);
      SeparatorsOfConcat(fields[0] + [SEPARATOR], Join(fields[1..]));
      SeparatorsOfConcat(fields[0], [SEPARATOR]);
    }
  }

  ghost predicate AllSeparatorFree(fields: seq<string>) {
    forall k :: 0 <= k < |fields| ==> SeparatorFree(fields[k])
  }

  lemma {:induction false} NoSeparatorsAnywhere(fields: seq<string>)
    ensures AllSeparators(fields) == 0 <==> AllSeparatorFree(fields)
  {
    if fields != [] {
      NoSeparators(fields[0]);
      NoSeparatorsAnywhere(fields[1..]);
      assert AllSeparatorFree(fields) <==> SeparatorFree(fields[0]) && AllSeparatorFree(fields[1..]);
    }
  }

  function FirstSeparatorIndex(s: string): nat {
    if s == "" || s[0] == SEPARATOR then 0 else 1 + FirstSeparatorIndex(s[1..])
  }

  lemma {:induction false} IndexAfterFreePrefix(x: string, u: string)
    requires SeparatorFree(x)
    ensures FirstSeparatorIndex(x + ([SEPARATOR] + u)) == |x|
  {
    if x == "" {
      assert x + ([SEPARATOR] + u) == [SEPARATOR] + u;
    } else {
      assert (x + ([SEPARATOR] + u))[1..] == x[1..] + ([SEPARATOR] + u);
      IndexAfterFreePrefix(x[1..], u);
    }
  }

  lemma FirstSeparator(x: string, u: string, y: string, v: string)
    requires SeparatorFree(x) && SeparatorFree(y)
    requires x + [SEPARATOR] + u == y + [SEPARATOR] + v
    ensures x == y && u == v
  {
    var s, t := x + ([SEPARATOR] + u), y + ([SEPARATOR] + v);
    assert s == x + [SEPARATOR] + u && t == y + [SEPARATOR] + v;
    IndexAfterFreePrefix(x, u);
    IndexAfterFreePrefix(y, v);
    assert x == s[..|x|] == t[..|y|] == y;
    assert u == s[|x| + 1..] == t[|y| + 1..] == v;
  }

  lemma {:induction false} JoinInjectiveWhenFree(a: seq<string>, b: seq<string>)
    requires |a| == |b| && AllSeparatorFree(a) && AllSeparatorFree(b)
    requires Join(a) == Join(b)
    ensures a == b
  {
    if |a| > 1 {
      FirstSeparator(a[0], Join(a[1..]), b[0], Join(b[1..]));
      JoinInjectiveWhenFree(a[1..], b[1..]);
    }
  }

  /**
   Separator-free fields are the only fields with their joined text: whatever the other
   fields contain, an equal text of the same arity forces them to be the same fields.
   */
  lemma JoinInjective(a: seq<string>, b: seq<string>)
    requires |a| == |b| > 0 && AllSeparatorFree(a)
    requires Join(a) == Join(b)
    ensures a == b
  {
    SeparatorsOfJoin(a);
    SeparatorsOfJoin(b);
    NoSeparatorsAnywhere(a);
    NoSeparatorsAnywhere(b);
    JoinInjectiveWhenFree(a, b);
  }

  lemma {:induction false} JoinConcat(a: seq<string>, b: seq<string>)
    requires a != [] && b != []
    ensures Join(a + b) == Join(a) + [SEPARATOR] + Join(b)
  {
    if |a| == 1 {
      assert (a + b)[1..] == b;
    } else {
      assert (a + b)[1..] == a[1..] + b;
      JoinConcat(a[1..], b);
      var head, tail := a[0] + [SEPARATOR], [SEPARATOR] + Join(b);
      assert head + (Join(a[1..]) + tail) == (head + Join(a[1..])) + tail;
    }
  }

  /** Two neighbouring fields can be cut elsewhere at a separator inside one of them. */
  lemma CutMoves(u: string, v: string, x: string)
    ensures Join([u + [SEPARATOR] + v, x]) == Join([u, v + [SEPARATOR] + x])
    ensures Join([x, u + [SEPARATOR] + v]) == Join([x + [SEPARATOR] + u, v])
  {
    var sep := [SEPARATOR];
    assert (u + sep + v) + sep + x == u + sep + (v + sep + x);
    assert x + sep + (u + sep + v) == (x + sep + u) + sep + v;
    JoinOfTwo(u + sep + v, x);
    JoinOfTwo(u, v + sep + x);
    JoinOfTwo(x, u + sep + v);
    JoinOfTwo(x + sep + u, v);
  }

  lemma JoinOfTwo(x: string, y: string)
    ensures Join([x, y]) == x + [SEPARATOR] + y
  {
    assert [x, y][1..] == [y];
  }

  /** Replacing two neighbouring fields by others with the same joined text keeps the whole text. */
  lemma JoinReplaced(f: seq<string>, i: nat, x: string, y: string)
    requires i + 1 < |f| && Join([f[i], f[i + 1]]) == Join([x, y])
    ensures Join(f[i := x][i + 1 := y]) == Join(f)
  {
    var g := f[i := x][i + 1 := y];
    var before, after := f[..i], f[i + 2..];
    assert f == before + ([f[i], f[i + 1]] + after) && g == before + ([x, y] + after);
    JoinTail([f[i], f[i + 1]], [x, y], after);
    if before != [] {
      JoinConcat(before, [f[i], f[i + 1]] + after);
      JoinConcat(before, [x, y] + after);
    } else {
      assert f == [f[i], f[i + 1]] + after && g == [x, y] + after;
    }
  }

  lemma JoinTail(a: seq<string>, b: seq<string>, after: seq<string>)
    requires a != [] && b != [] && Join(a) == Join(b)
    ensures Join(a + after) == Join(b + after)
  {
    if after == [] {
      assert a + after == a && b + after == b;
    } else {
      JoinConcat(a, after);
      JoinConcat(b, after);
    }
  }

  /** A separator inside a field can be read as a field boundary. */
  lemma SeparatorCollides(f: seq<string>) returns (g: seq<string>)
    requires |f| >= 2 && !AllSeparatorFree(f)
    ensures |g| == |f| && g != f && Join(g) == Join(f)
  {
    var k :| 0 <= k < |f| && !SeparatorFree(f[k]);
    var j :| 0 <= j < |f[k]| && f[k][j] == SEPARATOR;
    var u, v := f[k][..j], f[k][j + 1..];
    assert f[k] == u + [SEPARATOR] + v;
    assert |u| < |f[k]| && |v| < |f[k]|;
    if k + 1 < |f| {
      g := f[k := u][k + 1 := v + [SEPARATOR] + f[k + 1]];
      CutMoves(u, v, f[k + 1]);
      JoinReplaced(f, k, u, v + [SEPARATOR] + f[k + 1]);
      assert g[k] == u;
    } else {
      g := f[k - 1 := f[k - 1] + [SEPARATOR] + u][k := v];
      CutMoves(u, v, f[k - 1]);
      JoinReplaced(f, k - 1, f[k - 1] + [SEPARATOR] + u, v);
      assert g[k] == v;
    }
  }

  /** The joined text determines the fields exactly when no field contains the separator. */
  lemma JoinDeterminesIff(f: seq<string>)
    requires |f| >= 2
    ensures (forall g :: |g| == |f| && Join(g) == Join(f) ==> g == f) <==> AllSeparatorFree(f)
  {
    if AllSeparatorFree(f) {
      forall g | |g| == |f| && Join(g) == Join(f) ensures g == f {
        JoinInjective(f, g);
      }
    } else {
      var g := SeparatorCollides(f);
    }
  }

  /** The fields an event contributes, after the predecessor hash and the timestamp. */
  function EventFields(e: AuditEvent): seq<string> {
    [e.actorUserId.GetOr(""), e.actorUserCode.GetOr(""), e.actorRole.GetOr(""), e.action, e.requestId,
     e.caseReference.GetOr(""), e.resourceType.GetOr(""), e.resourceId.GetOr(""), e.result, e.source.GetOr(""),
     e.ipAddress.GetOr(""), e.userAgent.GetOr(""), e.metadata.GetOr("")]
  }

  function EventOf(f: seq<string>): AuditEvent
    requires |f| == HASHED_FIELDS - 2
  {
    AuditEvent(Some(f[0]), Some(f[1]), Some(f[2]), f[3], f[4], Some(f[5]), Some(f[6]), Some(f[7]), f[8], Some(f[9]),
               Some(f[10]), Some(f[11]), Some(f[12]), None, None)
  }

  lemma CanonicalTextSplits(lib: Library, previousHash: string, timestamp: int, e: AuditEvent)
    ensures HashedFields(lib, previousHash, timestamp, e) == [previousHash, lib.format(timestamp)] + EventFields(e)
    ensures CanonicalEventString(lib, previousHash, timestamp, e)
         == Join([previousHash, lib.format(timestamp)]) + [SEPARATOR] + Join(EventFields(e))
  {
    JoinConcat([previousHash, lib.format(timestamp)], EventFields(e));
  }

  /**
   Under the same predecessor and instant some event with other hashed fields has this event's
   canonical text exactly when one of this event's fields contains the separator.
   */
  lemma EventTextIsAmbiguousIff(lib: Library, previousHash: string, timestamp: int, e: AuditEvent)
    ensures
      (exists other ::
         && HashedFields(lib, previousHash, timestamp, other) != HashedFields(lib, previousHash, timestamp, e)
         && CanonicalEventString(lib, previousHash, timestamp, other)
           == CanonicalEventString(lib, previousHash, timestamp, e))
      <==> !EventSeparatorFree(e)
  {
    hide HashedFields, CanonicalEventString;
    var head, f := [previousHash, lib.format(timestamp)], EventFields(e);
    CanonicalTextSplits(lib, previousHash, timestamp, e);
    SeparatorFreeFields(e);
    JoinDeterminesIff(f);
    if EventSeparatorFree(e) {
      forall other | CanonicalEventString(lib, previousHash, timestamp, other)
        == CanonicalEventString(lib, previousHash, timestamp, e)
        ensures HashedFields(lib, previousHash, timestamp, other) == HashedFields(lib, previousHash, timestamp, e)
      {
        CanonicalTextSplits(lib, previousHash, timestamp, other);
        SamePrefix(Join(head) + [SEPARATOR], Join(EventFields(other)), Join(f));
      }
    } else {
      var g := SeparatorCollides(f);
      var other := EventOf(g);
      assert EventFields(other) == g;
      CanonicalTextSplits(lib, previousHash, timestamp, other);
      assert (head + g)[2..] == g && (head + f)[2..] == f;
    }
  }

  lemma SamePrefix(head: string, s: string, t: string)
    ensures head + s == head + t ==> s == t
  {
    assert (head + s)[|head|..] == s && (head + t)[|head|..] == t;
  }

  /** No field that an event contributes to the hash contains the separator. */
  ghost predicate EventSeparatorFree(e: AuditEvent) {
    && SeparatorFree(e.actorUserId.GetOr("")) && SeparatorFree(e.actorUserCode.GetOr(""))
    && SeparatorFree(e.actorRole.GetOr("")) && SeparatorFree(e.action) && SeparatorFree(e.requestId)
    && SeparatorFree(e.caseReference.GetOr("")) && SeparatorFree(e.resourceType.GetOr(""))
    && SeparatorFree(e.resourceId.GetOr("")) && SeparatorFree(e.result) && SeparatorFree(e.source.GetOr(""))
    && SeparatorFree(e.ipAddress.GetOr("")) && SeparatorFree(e.userAgent.GetOr(""))
    && SeparatorFree(e.metadata.GetOr(""))
  }

  lemma SeparatorFreeFields(e: AuditEvent)
    ensures AllSeparatorFree(EventFields(e)) <==> EventSeparatorFree(e)
  {
    var f := EventFields(e);
    if AllSeparatorFree(f) {
      assert SeparatorFree(f[0]) && SeparatorFree(f[1]) && SeparatorFree(f[2]) && SeparatorFree(f[3]);
      assert SeparatorFree(f[4]) && SeparatorFree(f[5]) && SeparatorFree(f[6]) && SeparatorFree(f[7]);
      assert SeparatorFree(f[8]) && SeparatorFree(f[9]) && SeparatorFree(f[10]) && SeparatorFree(f[11]);
      assert SeparatorFree(f[12]);
    }
  }

  // ----- the audit chain -----

  /** The hashed content of a stored entry; none when its timestamp does not parse. */
  function Content(lib: Library, entry: Entry): Option<seq<string>> {
    match lib.parse(entry.timestamp)
    case None => None
    case Some(t) => Some(HashedFields(lib, entry.Previous(), t, entry.event))
  }

  /** The entry's stored hash is the hash of its own stored content. */
  predicate SelfConsistent(lib: Library, entry: Entry) {
    var content := Content(lib, entry);
    content.Some? && lib.hash(Join(content.value)) == entry.Hash()
  }

  type AuditReading = Scheme<Entry, Option<seq<string>>>

  function AuditScheme(lib: Library): AuditReading {
    Scheme(GenesisHash(), (e: Entry) => e.Previous(), (e: Entry) => e.Hash(),
           (e: Entry) => Content(lib, e), (e: Entry) => SelfConsistent(lib, e))
  }

  ghost predicate Clean(chain: seq<Entry>) {
    forall i :: 0 <= i < |chain| ==> EventSeparatorFree(chain[i].event)
  }

  /** A self-consistent, separator-free entry is committed to by its hash. */
  lemma CleanEntryCommits(lib: Library, entry: Entry)
    requires Lawful(lib) && SelfConsistent(lib, entry) && EventSeparatorFree(entry.event)
      && SeparatorFree(entry.Previous())
    ensures Commits(AuditScheme(lib), entry)
  {
    var a := Content(lib, entry).value;
    assert AllSeparatorFree(a);
    assert a[0] == entry.Previous();
    forall other: Entry | SelfConsistent(lib, other) && other.Hash() == entry.Hash()
      ensures Content(lib, other) == Content(lib, entry) && other.Previous() == entry.Previous()
    {
      var b := Content(lib, other).value;
      assert b[0] == other.Previous();
      JoinInjective(a, b);
    }
  }

  /** Clean events make an intact audit chain a committed one, so every result on hash chains applies to it. */
  lemma CleanChainIsCommitted(lib: Library, chain: seq<Entry>)
    requires Lawful(lib) && Clean(chain) && Intact(AuditScheme(lib), chain)
    ensures Committed(AuditScheme(lib), chain)
  {
    var s := AuditScheme(lib);
    forall i | 0 <= i < |chain| ensures Commits(s, chain[i]) {
      assert RowHolds(s, chain, i);
      assert i > 0 ==> RowHolds(s, chain, i - 1);
      CleanEntryCommits(lib, chain[i]);
    }
  }
}
