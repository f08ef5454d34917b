/** Country bucketing of clubs and the enrichment of transfer rows with a numeric fee and a
    country bucket for each side. */
module Buckets {
  import opened Wrappers
  import opened Text
  import opened Fees

  /** The sentinel buckets for players leaving or joining no club. */
  const WithoutClub: string := "Without Club"
  const Retired: string := "Retired"
  const Unknown: string := "Unknown"

  predicate IsSentinel(bucket: string)
  {
    bucket == WithoutClub || bucket == Retired || bucket == Unknown
  }

  /** A row of the transfers table. Missing ids and names are `None`. */
  datatype Transfer = Transfer(
    season: string,
    fromId: Option<int>,
    fromName: Option<string>,
    toId: Option<int>,
    toName: Option<string>,
    playerId: Option<int>,
    fee: FeeValue)

  /** A transfer row with the columns `fee_eur`, `from_country` and `to_country` added. */
  datatype Enriched = Enriched(row: Transfer, feeEur: real, fromCountry: string, toCountry: string)

  /** The name-based fallback: a club name that mentions no club or retirement. */
  function NameBucket(name: Option<string>): (bucket: string)
    ensures IsSentinel(bucket)
  {
    match name
    case None => Unknown
    case Some(n) => KeyBucket(Lower(Strip(n)))
  }

  /** The sentinel named by a stripped, lower-cased club name. */
  function KeyBucket(key: string): (bucket: string)
    ensures IsSentinel(bucket)
  {
    if Contains(key, "without club") || Contains(key, "no club") then WithoutClub
    else if Contains(key, "retired") then Retired
    else Unknown
  }

  /** `classify_club_country`: the id decides when it is known; otherwise the name may name a
      sentinel state; anything else is `Unknown`. */
  function Classify(id: Option<int>, name: Option<string>, countries: map<int, string>): (bucket: string)
    ensures id.Some? && id.value in countries ==> bucket == countries[id.value]
    ensures !(id.Some? && id.value in countries) ==> IsSentinel(bucket)
  {
    if id.Some? && id.value in countries then countries[id.value]
    else NameBucket(name)
  }

  /** `name` mentions `marker`, ignoring case, anywhere in the text. */
  predicate Mentions(name: string, marker: string)
  {
    Contains(Lower(name), marker)
  }

  /** Stripping before the search does not matter for a marker without surrounding spaces. */
  lemma StrippedMention(name: string, marker: string)
    requires |marker| > 0 && !IsSpace(marker[0]) && !IsSpace(marker[|marker| - 1])
    ensures Contains(Lower(Strip(name)), marker) <==> Mentions(name, marker)
  {
    StripLower(name);
    if Mentions(name, marker) {
      ContainsSurvivesStrip(Lower(name), marker);
    }
    if Contains(Strip(Lower(name)), marker) {
      StripContainedIn(Lower(name), marker);
    }
  }

  /** The name rule in the source's terms: `Without Club` when the name mentions
      "without club" or "no club" (checked first), else `Retired` when it mentions "retired",
      else `Unknown`; a missing name is `Unknown`. */
  lemma NameBucketRule(name: Option<string>)
    ensures NameBucket(name)
         == if name.None? then Unknown
            else if Mentions(name.value, "without club") || Mentions(name.value, "no club") then WithoutClub
            else if Mentions(name.value, "retired") then Retired
            else Unknown
  {
    if name.Some? {
      StrippedMention(name.value, "without club");
      StrippedMention(name.value, "no club");
      StrippedMention(name.value, "retired");
    }
  }

  /** A known id wins over whatever the name says. */
  lemma IdTakesPrecedence(id: int, name1: Option<string>, name2: Option<string>, countries: map<int, string>)
    requires id in countries
    ensures Classify(Some(id), name1, countries) == Classify(Some(id), name2, countries) == countries[id]
  {
  }

  /** Classification ignores case in the name ... */
  lemma ClassifyIgnoresCase(id: Option<int>, name: string, countries: map<int, string>)
    ensures Classify(id, Some(Lower(name)), countries) == Classify(id, Some(name), countries)
  {
    StripLower(name);
    LowerIdempotent(Strip(name));
    assert Lower(Strip(Lower(name))) == Lower(Strip(name));
  }

  /** ... and surrounding whitespace. */
  lemma ClassifyIgnoresPadding(id: Option<int>, name: string, countries: map<int, string>)
    ensures Classify(id, Some(Strip(name)), countries) == Classify(id, Some(name), countries)
  {
    StripIdempotent(name);
    assert Lower(Strip(Strip(name))) == Lower(Strip(name));
  }

  /** Every bucket is a country of the map or a sentinel. */
  lemma ClassifyRange(id: Option<int>, name: Option<string>, countries: map<int, string>)
    ensures Classify(id, name, countries) in countries.Values || IsSentinel(Classify(id, name, countries))
  {
  }

  /** One row of `build_transfer_enriched`. */
  function Enrich(t: Transfer, countries: map<int, string>): (e: Enriched)
    ensures e.row == t
  {
    Enriched(t,
      ParseFee(t.fee),
      Classify(t.fromId, t.fromName, countries),
      Classify(t.toId, t.toName, countries))
  }

  /** `build_transfer_enriched`: every row is kept, in order, and each side is classified
      from its own id and name only. */
  function EnrichTransfers(ts: seq<Transfer>, countries: map<int, string>): (es: seq<Enriched>)
    ensures |es| == |ts|
    ensures forall i :: 0 <= i < |ts| ==> es[i].row == ts[i]
    ensures forall i :: 0 <= i < |ts| ==> es[i].feeEur == ParseFee(ts[i].fee)
    ensures forall i :: 0 <= i < |ts| ==>
      es[i].fromCountry == Classify(ts[i].fromId, ts[i].fromName, countries)
      && es[i].toCountry == Classify(ts[i].toId, ts[i].toName, countries)
  {
    if ts == [] then [] else [Enrich(ts[0], countries)] + EnrichTransfers(ts[1..], countries)
  }

  /** The original table is recovered by dropping the added columns. */
  function Rows(es: seq<Enriched>): (ts: seq<Transfer>)
    ensures |ts| == |es| && forall i :: 0 <= i < |es| ==> ts[i] == es[i].row
  {
    if es == [] then [] else [es[0].row] + Rows(es[1..])
  }

  lemma EnrichKeepsRows(ts: seq<Transfer>, countries: map<int, string>)
    ensures Rows(EnrichTransfers(ts, countries)) == ts
  {
  }

  /** Enrichment distributes over concatenation, so it can be applied to any split of the table. */
  lemma {:induction false} EnrichConcat(a: seq<Transfer>, b: seq<Transfer>, countries: map<int, string>)
    ensures EnrichTransfers(a + b, countries) == EnrichTransfers(a, countries) + EnrichTransfers(b, countries)
  {
    if a != [] {
      assert (a + b)[1..] == a[1..] + b;
      EnrichConcat(a[1..], b, countries);
    } else {
      assert a + b == b;
    }
  }

  /** Fees are non-negative whenever no numeric cell is negative: a written fee never is. */
  lemma EnrichedFeesNonNegative(ts: seq<Transfer>, countries: map<int, string>)
    requires forall i :: 0 <= i < |ts| ==> ts[i].fee.Numeric? ==> ts[i].fee.amount >= 0.0
    ensures forall e :: e in EnrichTransfers(ts, countries) ==> e.feeEur >= 0.0
  {
    var es := EnrichTransfers(ts, countries);
    forall e | e in es ensures e.feeEur >= 0.0 {
      var i :| 0 <= i < |es| && es[i] == e;
      if ts[i].fee.Written? {
        TextFeeNonNegative(ts[i].fee.text);
      }
    }
  }
}
