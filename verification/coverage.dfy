/** Name canonicalisation and the coverage measures of the club knowledge base against the
    transfers table: a club is "found" when its id or its name is known. */
module Coverage {
  import opened Wrappers
  import opened Seqs
  import opened Text
  import opened Buckets

  // ---------- name canonicalisation ----------

  predicate AllAscii(s: string)
  {
    forall i :: 0 <= i < |s| ==> s[i] as int < 128
  }

  /** `standardize_text`: a missing value stays missing; anything else is transliterated
      (`translit` stands for `unidecode`), lower-cased and stripped. */
  function Standardize(translit: string -> string, text: Option<string>): (r: Option<string>)
    ensures r.None? <==> text.None?
    ensures r.Some? ==> Strip(r.value) == r.value
    ensures r.Some? ==> forall i :: 0 <= i < |r.value| ==> !IsUpper(r.value[i])
  {
    match text
    case None => None
    case Some(t) =>
      var low := Lower(translit(t));
      StripIdempotent(low);
      StripLower(translit(t));
      LowerHasNoUpper(Strip(translit(t)));
      Some(Strip(low))
  }

  lemma {:induction false} LowerAscii(s: string)
    requires AllAscii(s)
    ensures AllAscii(Lower(s))
  {
  }

  lemma {:induction false} StripAscii(s: string)
    requires AllAscii(s)
    ensures AllAscii(Strip(s))
  {
    StripSubset(s);
    var r := Strip(s);
    forall i | 0 <= i < |r|
      ensures r[i] as int < 128
    {
      assert r[i] in s;
    }
  }

  /** Standardising twice is standardising once, for a transliteration that yields ASCII and
      leaves ASCII text alone. */
  lemma StandardizeIdempotent(translit: string -> string, text: Option<string>)
    requires forall s :: AllAscii(translit(s))
    requires forall s :: AllAscii(s) ==> translit(s) == s
    ensures Standardize(translit, Standardize(translit, text)) == Standardize(translit, text)
  {
    if text.Some? {
      var low := Lower(translit(text.value));
      var once := Strip(low);
      LowerAscii(translit(text.value));
      StripAscii(low);
      assert translit(once) == once;
      LowerUnchanged(once);
      StripIdempotent(low);
    }
  }

  /** Letter case never separates two ASCII names. */
  lemma StandardizeIgnoresCase(translit: string -> string, a: string, b: string)
    requires forall s :: AllAscii(s) ==> translit(s) == s
    requires AllAscii(a) && AllAscii(b) && Lower(a) == Lower(b)
    ensures Standardize(translit, Some(a)) == Standardize(translit, Some(b))
  {
  }

  // ---------- the found predicate ----------

  /** `check_if_found`: the id is present and known, or the name is present and known. */
  function Found(id: Option<int>, name: Option<string>, ids: set<int>, names: set<string>): (found: bool)
    ensures id.None? && name.None? ==> !found
    ensures id.Some? && id.value in ids ==> found
  {
    (id.Some? && id.value in ids) || (name.Some? && name.value in names)
  }

  /** A club that is found, or that has neither an id nor a name. */
  predicate FoundOrBlank(id: Option<int>, name: Option<string>, ids: set<int>, names: set<string>)
  {
    Found(id, name, ids, names) || (id.None? && name.None?)
  }

  /** Growing the knowledge base never loses a found club. */
  lemma FoundMonotone(id: Option<int>, name: Option<string>, ids: set<int>, names: set<string>, ids2: set<int>, names2: set<string>)
    requires ids <= ids2 && names <= names2
    requires Found(id, name, ids, names)
    ensures Found(id, name, ids2, names2)
  {
  }

  /** The id alone decides when it is known; the name is consulted only otherwise. */
  lemma FoundByNameOnly(id: Option<int>, name: Option<string>, ids: set<int>, names: set<string>)
    requires id.None? || id.value !in ids
    ensures Found(id, name, ids, names) <==> name.Some? && name.value in names
  {
  }

  // ---------- per-row coverage ----------

  function FromFound(ids: set<int>, names: set<string>): Transfer -> bool
  {
    (t: Transfer) => Found(t.fromId, t.fromName, ids, names)
  }

  function ToFound(ids: set<int>, names: set<string>): Transfer -> bool
  {
    (t: Transfer) => Found(t.toId, t.toName, ids, names)
  }

  /** Both clubs of the transfer are known. */
  function BothFound(ids: set<int>, names: set<string>): Transfer -> bool
  {
    (t: Transfer) => Found(t.fromId, t.fromName, ids, names) && Found(t.toId, t.toName, ids, names)
  }

  /** At least one club of the transfer is known. */
  function OneFound(ids: set<int>, names: set<string>): Transfer -> bool
  {
    (t: Transfer) => Found(t.fromId, t.fromName, ids, names) || Found(t.toId, t.toName, ids, names)
  }

  /** Neither club of the transfer is known. */
  function NoneFound(ids: set<int>, names: set<string>): Transfer -> bool
  {
    (t: Transfer) => !Found(t.fromId, t.fromName, ids, names) && !Found(t.toId, t.toName, ids, names)
  }

  /** The three per-row counts: fully explained, at least partly explained, unexplained. */
  method RowCoverage(ts: seq<Transfer>, ids: set<int>, names: set<string>)
    returns (both: nat, one: nat, none: nat)
    ensures both == |Filter(ts, BothFound(ids, names))|
    ensures one == |Filter(ts, OneFound(ids, names))|
    ensures none == |Filter(ts, NoneFound(ids, names))|
    ensures both <= one
    ensures one + none == |ts|
  {
    both, one, none := 0, 0, 0;
    var k := 0;
    assert ts[0..] == ts;
    while k < |ts|
      invariant 0 <= k <= |ts|
      invariant both + |Filter(ts[k..], BothFound(ids, names))| == |Filter(ts, BothFound(ids, names))|
      invariant one + |Filter(ts[k..], OneFound(ids, names))| == |Filter(ts, OneFound(ids, names))|
      invariant none + |Filter(ts[k..], NoneFound(ids, names))| == |Filter(ts, NoneFound(ids, names))|
      invariant both <= one
      invariant one + none == k
    {
      var t := ts[k];
      assert ts[k..][1..] == ts[k + 1..];
      var b := BothFound(ids, names)(t);
      var o := OneFound(ids, names)(t);
      assert NoneFound(ids, names)(t) == !o;
      assert b ==> o;
      if b {
        both := both + 1;
      }
      if o {
        one := one + 1;
      } else {
        none := none + 1;
      }
      k := k + 1;
    }
  }

  /** The rows found on the "from" side plus those found on the "to" side count the fully
      explained rows twice and the partly explained ones once. */
  lemma SideCounts(ts: seq<Transfer>, ids: set<int>, names: set<string>)
    ensures |Filter(ts, FromFound(ids, names))| + |Filter(ts, ToFound(ids, names))|
         == |Filter(ts, BothFound(ids, names))| + |Filter(ts, OneFound(ids, names))|
  {
    FilterInclusionExclusion(ts, FromFound(ids, names), ToFound(ids, names), BothFound(ids, names), OneFound(ids, names));
  }

  // ---------- unique club coverage ----------

  /** One (id, name) pair naming a club in the transfers table. */
  datatype ClubEntry = ClubEntry(id: Option<int>, name: Option<string>)

  /** The (id, name) pairs of the "from" side followed by those of the "to" side. */
  function FromEntries(ts: seq<Transfer>): (r: seq<ClubEntry>)
    ensures |r| == |ts|
    ensures forall i :: 0 <= i < |ts| ==> r[i] == ClubEntry(ts[i].fromId, ts[i].fromName)
  {
    if ts == [] then [] else [ClubEntry(ts[0].fromId, ts[0].fromName)] + FromEntries(ts[1..])
  }

  function ToEntries(ts: seq<Transfer>): (r: seq<ClubEntry>)
    ensures |r| == |ts|
    ensures forall i :: 0 <= i < |ts| ==> r[i] == ClubEntry(ts[i].toId, ts[i].toName)
  {
    if ts == [] then [] else [ClubEntry(ts[0].toId, ts[0].toName)] + ToEntries(ts[1..])
  }

  /** A pair with an id or a name; `dropna(how='all')` removes the others. */
  function HasKey(): ClubEntry -> bool
  {
    (e: ClubEntry) => e.id.Some? || e.name.Some?
  }

  function EntryFound(ids: set<int>, names: set<string>): ClubEntry -> bool
  {
    (e: ClubEntry) => Found(e.id, e.name, ids, names)
  }

  /** The distinct (id, name) pairs of both sides, first occurrence kept, without the pairs
      that have neither an id nor a name. */
  function UniquePairs(ts: seq<Transfer>): seq<ClubEntry>
  {
    Filter(Dedup(FromEntries(ts) + ToEntries(ts)), HasKey())
  }

  /** Each pair appears once, and a pair appears exactly when some transfer names it on
      either side with an id or a name. */
  lemma UniquePairsMembers(ts: seq<Transfer>, e: ClubEntry)
    ensures Distinct(UniquePairs(ts))
    ensures e in UniquePairs(ts) <==>
            (e.id.Some? || e.name.Some?) &&
            exists i :: 0 <= i < |ts| && (e == ClubEntry(ts[i].fromId, ts[i].fromName) || e == ClubEntry(ts[i].toId, ts[i].toName))
  {
    var all := FromEntries(ts) + ToEntries(ts);
    var d := Dedup(all);
    FilterDistinct(d, HasKey());
    if e in all {
      if e in FromEntries(ts) {
        var i :| 0 <= i < |ts| && FromEntries(ts)[i] == e;
      } else {
        var i :| 0 <= i < |ts| && ToEntries(ts)[i] == e;
      }
    }
    if exists i :: 0 <= i < |ts| && (e == ClubEntry(ts[i].fromId, ts[i].fromName) || e == ClubEntry(ts[i].toId, ts[i].toName)) {
      var i :| 0 <= i < |ts| && (e == ClubEntry(ts[i].fromId, ts[i].fromName) || e == ClubEntry(ts[i].toId, ts[i].toName));
      assert e == FromEntries(ts)[i] || e == ToEntries(ts)[i];
      assert e in all;
    }
  }

  /** The unique-pair coverage: how many distinct pairs there are and how many are found. */
  function PairCoverage(ts: seq<Transfer>, ids: set<int>, names: set<string>): (r: (nat, nat))
    ensures r.0 <= r.1
  {
    var pairs := UniquePairs(ts);
    (|Filter(pairs, EntryFound(ids, names))|, |pairs|)
  }

  /** Every distinct pair is found exactly when every club named in the transfers, on either
      side, with an id or a name, is found. */
  lemma FullPairCoverage(ts: seq<Transfer>, ids: set<int>, names: set<string>)
    ensures PairCoverage(ts, ids, names).0 == PairCoverage(ts, ids, names).1 <==>
            forall i :: 0 <= i < |ts| ==>
              FoundOrBlank(ts[i].fromId, ts[i].fromName, ids, names) && FoundOrBlank(ts[i].toId, ts[i].toName, ids, names)
  {
    var pairs := UniquePairs(ts);
    FilterKeepsAllIff(pairs, EntryFound(ids, names));
    if forall e :: e in pairs ==> EntryFound(ids, names)(e) {
      forall i | 0 <= i < |ts|
        ensures FoundOrBlank(ts[i].fromId, ts[i].fromName, ids, names)
        ensures FoundOrBlank(ts[i].toId, ts[i].toName, ids, names)
      {
        UniquePairsMembers(ts, ClubEntry(ts[i].fromId, ts[i].fromName));
        UniquePairsMembers(ts, ClubEntry(ts[i].toId, ts[i].toName));
      }
    } else {
      var e :| e in pairs && !EntryFound(ids, names)(e);
      UniquePairsMembers(ts, e);
      var i :| 0 <= i < |ts| && (e == ClubEntry(ts[i].fromId, ts[i].fromName) || e == ClubEntry(ts[i].toId, ts[i].toName));
      assert !(FoundOrBlank(ts[i].fromId, ts[i].fromName, ids, names) && FoundOrBlank(ts[i].toId, ts[i].toName, ids, names));
    }
  }
}
