/** Resolving an author to the domain of their most recent affiliation
    (`get_author_domain` and the per-author mapping of `_main`,
    scrape_domains.py). The profile service is an input: the profiles it
    returns for an id are given as data. */
module ScrapeDomains {
  import opened PyStr
  import opened Wrappers


  /** A `start` or `end` field of a history entry as the service sends it. */
  datatype YearField =
    | Missing              // the key is absent: `pos.get(...)` is None
    | Null                 // JSON null
    | EmptyText            // ""
    | Number(n: int)       // a JSON number
    | NumberText(n: int)   // a non-empty string holding a number, such as "0"

  /** Falsy values are replaced by the right operand of `or`. */
  predicate Truthy(f: YearField) {
    match f
    case Number(n) => n != 0
    case NumberText(_) => true
    case _ => false
  }

  /** A year after `float(...)`, with the two infinities. */
  datatype Bound = NegInf | Finite(year: int) | PosInf

  predicate BoundLess(a: Bound, b: Bound) {
    match (a, b)
    case (NegInf, NegInf) => false
    case (NegInf, _) => true
    case (Finite(x), Finite(y)) => x < y
    case (Finite(_), PosInf) => true
    case _ => false
  }

  datatype Institution = Institution(domain: Option<string>)

  datatype Position = Position(start: YearField, end: YearField, institution: Option<Institution>)

  /** `content.history` of a profile; None when `content` or `history` is absent. */
  datatype Profile = Profile(history: Option<seq<Position>>)

  /** `float(pos.get("end") or "inf")` */
  function EndOf(p: Position): (b: Bound)
    ensures b == PosInf <==> !Truthy(p.end)
  {
    if Truthy(p.end) then Finite(p.end.n) else PosInf
  }

  /** `float(pos.get("start") or "-inf")` */
  function StartOf(p: Position): (b: Bound)
    ensures b == NegInf <==> !Truthy(p.start)
  {
    if Truthy(p.start) then Finite(p.start.n) else NegInf
  }

  /** `pos.get("institution", {}).get("domain", "")`: an entry without an
      institution, or whose institution has no domain, counts as "". */
  function DomainOf(p: Position): (d: string)
    ensures p.institution == None || p.institution.value.domain == None ==> d == ""
  {
    match p.institution
    case Some(Institution(Some(d))) => d
    case _ => ""
  }

  /** The tuple `(end, start, domain)` compared by `max`. */
  datatype Key = Key(end: Bound, start: Bound, domain: string)

  function KeyOf(p: Position): Key {
    Key(EndOf(p), StartOf(p), DomainOf(p))
  }

  /** Python's tuple `<`: the first differing component decides. */
  predicate KeyLess(a: Key, b: Key) {
    || BoundLess(a.end, b.end)
    || (a.end == b.end && BoundLess(a.start, b.start))
    || (a.end == b.end && a.start == b.start && Less(a.domain, b.domain))
  }

  lemma KeyLessIrreflexive(a: Key)
    ensures !KeyLess(a, a)
  {
    LessIrreflexive(a.domain);
  }

  lemma KeyLessTransitive(a: Key, b: Key, c: Key)
    ensures KeyLess(a, b) && KeyLess(b, c) ==> KeyLess(a, c)
  {
    if KeyLess(a, b) && KeyLess(b, c) && a.end == c.end && a.start == c.start {
      LessTransitive(a.domain, b.domain, c.domain);
    }
  }

  lemma KeyLessTotal(a: Key, b: Key)
    ensures a != b ==> KeyLess(a, b) || KeyLess(b, a)
  {
    if a.end == b.end && a.start == b.start && a.domain != b.domain {
      LessTotal(a.domain, b.domain);
    }
  }

  /** `max` over `best` followed by `rest`: an item replaces the current
      maximum only when it is strictly greater, so the first maximum stays. */
  function MaxFrom(best: Key, rest: seq<Key>): (r: Key)
    ensures r == best || r in rest
    ensures !KeyLess(r, best)
    ensures forall k :: k in rest ==> !KeyLess(r, k)
    decreases |rest|
  {
    if |rest| == 0 then
      KeyLessIrreflexive(best);
      best
    else
      var next := if KeyLess(best, rest[0]) then rest[0] else best;
      var r := MaxFrom(next, rest[1..]);
      KeyLessTotal(r, best);
      KeyLessTransitive(r, best, rest[0]);
      KeyLessTransitive(best, r, rest[0]);
      assert forall k :: k in rest ==> k == rest[0] || k in rest[1..];
      r
  }

  /** The history entries of all profiles, profile by profile, in order. */
  function Entries(profiles: seq<Profile>): (es: seq<Position>)
    decreases |profiles|
  {
    if |profiles| == 0 then []
    else
      var own := match profiles[0].history case Some(h) => h case None => [];
      own + Entries(profiles[1..])
  }

  /** The default of `max` when there is no entry. */
  const NoEntry: Key := Key(PosInf, NegInf, "")

  /** The `max(..., default=...)` of lines 28-33. */
  function MostRecent(profiles: seq<Profile>): (k: Key)
    ensures Entries(profiles) == [] ==> k == NoEntry
    ensures Entries(profiles) != [] ==> exists e :: e in Entries(profiles) && KeyOf(e) == k
    ensures forall e :: e in Entries(profiles) ==> !KeyLess(k, KeyOf(e))
  {
    var es := Entries(profiles);
    var keys := seq(|es|, i requires 0 <= i < |es| => KeyOf(es[i]));
    if |keys| == 0 then NoEntry
    else
      var k := MaxFrom(keys[0], keys[1..]);
      assert forall e :: e in es ==> KeyOf(e) in keys by {
        forall e | e in es ensures KeyOf(e) in keys {
          var i :| 0 <= i < |es| && es[i] == e;
          assert keys[i] == KeyOf(e);
        }
      }
      assert k in keys;
      k
  }

  /** `get_author_domain(author_id)`, with `profiles` the profiles the service
      returns for a `~` id. An e-mail id gives the text after its last `@`; a
      profile id gives the domain of an entry, or "" when there is none. */
  function AuthorDomain(authorId: string, profiles: seq<Profile>): (r: string)
    ensures !StartsWith(authorId, "~") ==>
              && '@' !in r && EndsWith(authorId, r)
              && (|r| == |authorId| || authorId[|authorId| - |r| - 1] == '@')
    ensures StartsWith(authorId, "~") ==>
              r == "" || exists e :: e in Entries(profiles) && DomainOf(e) == r
  {
    if !StartsWith(authorId, "~") then AfterLast(authorId, '@')
    else MostRecent(profiles).domain
  }

  /** An e-mail id is resolved without the profiles. */
  lemma EmailNeedsNoLookup(authorId: string, p1: seq<Profile>, p2: seq<Profile>)
    requires !StartsWith(authorId, "~")
    ensures AuthorDomain(authorId, p1) == AuthorDomain(authorId, p2)
  {
  }

  lemma {:induction false} NoHistoryNoEntries(profiles: seq<Profile>)
    requires forall i :: 0 <= i < |profiles| ==> profiles[i].history in {None, Some([])}
    ensures Entries(profiles) == []
    decreases |profiles|
  {
    if |profiles| > 0 {
      NoHistoryNoEntries(profiles[1..]);
    }
  }

  /** No profile, or no history in any of them: the domain is "". */
  lemma NoHistoryGivesEmpty(profiles: seq<Profile>)
    requires forall i :: 0 <= i < |profiles| ==> profiles[i].history in {None, Some([])}
    ensures MostRecent(profiles).domain == ""
  {
    NoHistoryNoEntries(profiles);
  }

  /** The chosen key against any entry: no later end; on an equal end no
      later start; on equal end and start no greater domain. */
  lemma MostRecentIsLatest(profiles: seq<Profile>, e: Position)
    requires e in Entries(profiles)
    ensures !BoundLess(MostRecent(profiles).end, EndOf(e))
    ensures MostRecent(profiles).end == EndOf(e) ==>
              !BoundLess(MostRecent(profiles).start, StartOf(e))
    ensures MostRecent(profiles).end == EndOf(e) && MostRecent(profiles).start == StartOf(e) ==>
              !Less(MostRecent(profiles).domain, DomainOf(e))
  {
    assert !KeyLess(MostRecent(profiles), KeyOf(e));
  }

  /** An entry with no end is current: if there is one, the domain comes
      from an entry with no end, whatever the starts. */
  lemma OpenEndedWins(profiles: seq<Profile>, e: Position)
    requires e in Entries(profiles) && !Truthy(e.end)
    ensures exists w :: w in Entries(profiles) && !Truthy(w.end)
                        && DomainOf(w) == MostRecent(profiles).domain
  {
    var k := MostRecent(profiles);
    MostRecentIsLatest(profiles, e);
    var w :| w in Entries(profiles) && KeyOf(w) == k;
    assert EndOf(w) == PosInf;
  }

  /** Among entries ending together with the chosen one, an unknown start
      loses to a known one. */
  lemma KnownStartWins(profiles: seq<Profile>, e: Position)
    requires e in Entries(profiles) && Truthy(e.start)
    requires EndOf(e) == MostRecent(profiles).end
    ensures exists w :: w in Entries(profiles) && Truthy(w.start)
                        && DomainOf(w) == MostRecent(profiles).domain
  {
    var k := MostRecent(profiles);
    MostRecentIsLatest(profiles, e);
    var w :| w in Entries(profiles) && KeyOf(w) == k;
    assert StartOf(w) != NegInf;
  }

  /** `_main`, lines 47-53: each distinct author is resolved once, through a
      dictionary, and every row gets the domain of its own author. */
  function DomainColumn(authors: seq<string>, lookup: string -> seq<Profile>): (column: seq<string>)
    ensures |column| == |authors|
    ensures forall i :: 0 <= i < |authors| ==> column[i] == AuthorDomain(authors[i], lookup(authors[i]))
  {
    var domains := map a | a in authors :: AuthorDomain(a, lookup(a));
    seq(|authors|, i requires 0 <= i < |authors| => domains[authors[i]])
  }
}
