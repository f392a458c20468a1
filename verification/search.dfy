/** `applySearch` (app.js:279-291): keeps the parishes whose location or ZIP matches the
    trimmed, lower-cased query and that carry every selected detail tag. */
module Search {
  import opened Text
  import opened Seqs
  import opened Parishes

  /** `query.trim().toLowerCase()`. */
  function NormalizedQuery(query: string): (q: string)
    ensures q == [] <==> AllSpace(query)
  {
    ToLower(Trim(query))
  }

  /** No query, the lower-cased location contains it, or the raw ZIP contains it. */
  predicate LocationMatch(p: Parish, normalizedQuery: string) {
    || normalizedQuery == []
    || Contains(ToLower(p.location), normalizedQuery)
    || Contains(p.zip, normalizedQuery)
  }

  /** `details.every((detail) => parish.details.includes(detail))`. */
  predicate DetailMatch(p: Parish, details: seq<string>) {
    forall i :: 0 <= i < |details| ==> details[i] in p.details
  }

  predicate Matches(p: Parish, normalizedQuery: string, details: seq<string>) {
    LocationMatch(p, normalizedQuery) && DetailMatch(p, details)
  }

  function ApplySearch(parishes: seq<Parish>, query: string, details: seq<string>): (r: seq<Parish>)
    ensures |r| <= |parishes|
    ensures IsSubsequence(r, parishes)
    ensures forall p :: p in r <==> p in parishes && Matches(p, NormalizedQuery(query), details)
    ensures forall p :: multiset(r)[p] ==
                        if Matches(p, NormalizedQuery(query), details) then multiset(parishes)[p] else 0
  {
    var q := NormalizedQuery(query);
    FilterIsSubsequence(parishes, p => Matches(p, q, details));
    Filter(parishes, p => Matches(p, q, details))
  }

  /** A blank or whitespace-only query with no selected details keeps every parish, in order. */
  lemma BlankSearchKeepsAll(parishes: seq<Parish>, query: string)
    requires AllSpace(query)
    ensures ApplySearch(parishes, query, []) == parishes
  {
    var q := NormalizedQuery(query);
    FilterKeepAll(parishes, p => Matches(p, q, []));
  }

  /** Selecting "latin" and "tongue" keeps St. John Vianney but drops Our Lady of the
      Angels, which is tagged "latin" only, and Holy Trinity, tagged "tongue" only. */
  lemma LatinAndTongueExample()
    ensures ApplySearch(SeedParishes(), "", ["latin", "tongue"]) == [StJohnVianney()]
  {
    var details := ["latin", "tongue"];
    var a, b, c := StJohnVianney(), HolyTrinity(), OurLadyOfTheAngels();
    assert details[0] in a.details && details[1] in a.details;
    assert Matches(a, NormalizedQuery(""), details);
    assert details[0] !in b.details;
    assert details[1] !in c.details;
    OnlyFirstMatches(a, b, c, NormalizedQuery(""), details);
  }

  lemma OnlyFirstMatches(a: Parish, b: Parish, c: Parish, q: string, details: seq<string>)
    requires Matches(a, q, details) && !Matches(b, q, details) && !Matches(c, q, details)
    ensures Filter([a, b, c], p => Matches(p, q, details)) == [a]
  {
    KeepOnlyFirst(a, b, c, p => Matches(p, q, details));
  }

  lemma Found(parishes: seq<Parish>, query: string, details: seq<string>, p: Parish)
    requires p in parishes && Matches(p, NormalizedQuery(query), details)
    ensures p in ApplySearch(parishes, query, details)
  {
  }

  /** The ZIP is matched as a raw substring of the trimmed query: any query that trims
      to "75039", such as "  75039 ", finds Holy Trinity. */
  lemma ZipExample(query: string)
    requires Trim(query) == "75039"
    ensures HolyTrinity() in ApplySearch(SeedParishes(), query, [])
    ensures Trim("  75039 ") == "75039"
  {
    TrimExample();
    ZipMatches(query);
    Found(SeedParishes(), query, [], HolyTrinity());
  }

  lemma TrimExample()
    ensures Trim("  75039 ") == "75039"
  {
    TrimBetween("  75039 ", 2, 5);
    assert "  75039 "[2..7] == "75039";
  }

  lemma ZipMatches(query: string)
    requires Trim(query) == "75039"
    ensures Matches(HolyTrinity(), NormalizedQuery(query), [])
  {
    assert NormalizedQuery(query) == "75039";
    assert OccursAt(HolyTrinity().zip, "75039", 0);
  }

  /** The location is compared lower-cased: any query that normalises to "dallas", such
      as "DALLAS", finds St. John Vianney in "Dallas, TX". */
  lemma CaseInsensitiveLocationExample(query: string)
    requires NormalizedQuery(query) == "dallas"
    ensures StJohnVianney() in ApplySearch(SeedParishes(), query, [])
    ensures NormalizedQuery("DALLAS") == "dallas"
  {
    DallasQuery();
    DallasMatches();
    Found(SeedParishes(), query, [], StJohnVianney());
  }

  lemma DallasQuery()
    ensures NormalizedQuery("DALLAS") == "dallas"
  {
    TrimBetween("DALLAS", 0, 6);
    assert "DALLAS"[0..6] == "DALLAS";
    DallasLower();
  }

  lemma DallasLower()
    ensures ToLower("DALLAS") == "dallas"
  {
    var r := ToLower("DALLAS");
    assert r[0] == 'd' && r[1] == 'a' && r[2] == 'l' && r[3] == 'l' && r[4] == 'a' && r[5] == 's';
  }

  lemma DallasMatches()
    ensures Matches(StJohnVianney(), "dallas", [])
  {
    var loc := ToLower(StJohnVianney().location);
    assert loc[..6] == "dallas";
    assert OccursAt(loc, "dallas", 0);
  }
}
