/**
 * `PN_Validation_New` and its per-row worker `SET_DESC`: every part number
 * of the sheet is looked up in the whole corpus. Documents whose text has at
 * most 100 characters are marked 'OCR' and skipped; the others are searched
 * for the part as a literal, case-insensitive substring, and the first hit
 * gives 'Exact'. Without a hit, the part is compared with the corpus keys
 * (the URLs) by a similarity ratio with cutoff 0.65: the best key gives
 * 'Includes or Missed Suffixes', no key gives 'Not Found'.
 *
 * The similarity ratio of difflib is a parameter `ratio`.
 */
module Matcher {
  import opened Wrappers
  import opened Corpus

  /** Texts of at most this many characters are treated as scanned (OCR) documents. */
  const OcrThreshold: nat := 100

  /** The `cutoff` of the fuzzy fallback. */
  const Cutoff: real := 0.65

  /** The STATUS strings 'OCR', 'Exact', 'Includes or Missed Suffixes' and 'Not Found'. */
  datatype Status = OCR | Exact | IncludesOrMissedSuffixes | NotFound

  /** Final content of one row's STATUS and EQUIVALENT cells. */
  datatype Verdict = Verdict(status: Status, equivalent: Option<string>)

  /** ASCII lower case, the case folding of the search. */
  function Lower(c: char): char {
    if 'A' <= c <= 'Z' then (c as int + 32) as char else c
  }

  /** `part` occurs in `text` at position `i`, ignoring case. */
  predicate MatchesAt(text: string, part: string, i: int) {
    && 0 <= i
    && i + |part| <= |text|
    && forall j :: 0 <= j < |part| ==> Lower(text[i + j]) == Lower(part[j])
  }

  ghost predicate ContainsIgnoreCase(text: string, part: string) {
    exists i :: MatchesAt(text, part, i)
  }

  /**
   * `re.search(re.escape(part), text, flags=re.IGNORECASE)` started at
   * `from`: the leftmost position at or after `from` where the part occurs
   * literally, or None.
   */
  function SearchFrom(part: string, text: string, from: nat): (r: Option<nat>)
    ensures r.Some? ==> from <= r.value && MatchesAt(text, part, r.value)
    ensures r.Some? ==> forall i :: from <= i < r.value ==> !MatchesAt(text, part, i)
    ensures r.None? ==> forall i :: from <= i ==> !MatchesAt(text, part, i)
    decreases |text| - from
  {
    if from + |part| > |text| then None
    else if MatchesAt(text, part, from) then Some(from)
    else SearchFrom(part, text, from + 1)
  }

  function Search(part: string, text: string): (r: Option<nat>)
    ensures r.Some? <==> ContainsIgnoreCase(text, part)
    ensures r.Some? ==> MatchesAt(text, part, r.value)
  {
    SearchFrom(part, text, 0)
  }

  /** A part that is empty is found in every text, as the empty pattern matches anywhere. */
  lemma EmptyPartAlwaysFound(text: string)
    ensures Search("", text) == Some(0)
  {
  }

  /**
   * `get_close_matches(part, keys, n=1, cutoff=0.65)`: a key whose ratio
   * reaches the cutoff and is the highest of all keys, or None when no key
   * reaches the cutoff. Among keys of equal best ratio the first is taken.
   */
  function CloseMatch(part: string, keys: seq<Url>, ratio: (string, string) -> real): (r: Option<Url>)
    ensures r.None? <==> forall k :: k in keys ==> ratio(part, k) < Cutoff
    ensures r.Some? ==> r.value in keys && ratio(part, r.value) >= Cutoff
    ensures r.Some? ==> forall k :: k in keys ==> ratio(part, k) <= ratio(part, r.value)
  {
    if keys == [] then None
    else
      var rest := CloseMatch(part, keys[1..], ratio);
      if ratio(part, keys[0]) < Cutoff then rest
      else if rest.Some? && ratio(part, rest.value) > ratio(part, keys[0]) then rest
      else Some(keys[0])
  }

  /** A document that is long enough to be searched. */
  predicate Readable(text: string) {
    |text| > OcrThreshold
  }

  /** Some searchable document of the corpus contains the part. */
  ghost predicate ExactHit(corpus: Dict, part: string) {
    exists url :: url in corpus.values && Readable(corpus.values[url]) && ContainsIgnoreCase(corpus.values[url], part)
  }

  /** The verdict one row ends with, stated without the scan that produces it. */
  ghost function Decide(corpus: Dict, part: string, ratio: (string, string) -> real): Verdict {
    if ExactHit(corpus, part) then Verdict(Exact, Some(part))
    else
      match CloseMatch(part, corpus.keys, ratio)
      case Some(url) => Verdict(IncludesOrMissedSuffixes, Some(url))
      case None => Verdict(NotFound, None)
  }

  /**
   * A row is 'Exact', with the part itself as EQUIVALENT, exactly when some
   * document of the corpus, in its iteration order, has more than 100
   * characters and contains the part ignoring case.
   */
  lemma ExactIff(corpus: Dict, part: string, ratio: (string, string) -> real)
    requires corpus.Valid()
    ensures Decide(corpus, part, ratio).status == Exact <==>
      exists i :: 0 <= i < |corpus.keys| && Readable(corpus.values[corpus.keys[i]])
                  && ContainsIgnoreCase(corpus.values[corpus.keys[i]], part)
    ensures Decide(corpus, part, ratio).status == Exact ==> Decide(corpus, part, ratio).equivalent == Some(part)
  {
    if ExactHit(corpus, part) {
      var url :| url in corpus.values && Readable(corpus.values[url]) && ContainsIgnoreCase(corpus.values[url], part);
      var i :| 0 <= i < |corpus.keys| && corpus.keys[i] == url;
    }
  }

  /** The 'OCR' mark never survives: every row ends 'Exact', fuzzy or 'Not Found'. */
  lemma NeverOcr(corpus: Dict, part: string, ratio: (string, string) -> real)
    ensures Decide(corpus, part, ratio).status != OCR
    ensures Decide(corpus, part, ratio).status in {Exact, IncludesOrMissedSuffixes, NotFound}
  {
  }

  /**
   * The fuzzy status appears only without an exact hit; EQUIVALENT is then a
   * corpus key (a URL) whose ratio reaches the cutoff and is maximal.
   */
  lemma FuzzyVerdict(corpus: Dict, part: string, ratio: (string, string) -> real)
    requires Decide(corpus, part, ratio).status == IncludesOrMissedSuffixes
    ensures !ExactHit(corpus, part)
    ensures Decide(corpus, part, ratio).equivalent.Some?
    ensures Decide(corpus, part, ratio).equivalent.value in corpus.keys
    ensures ratio(part, Decide(corpus, part, ratio).equivalent.value) >= Cutoff
    ensures forall k :: k in corpus.keys ==> ratio(part, k) <= ratio(part, Decide(corpus, part, ratio).equivalent.value)
  {
  }

  /** 'Not Found' exactly when there is no exact hit and no key reaches the cutoff; EQUIVALENT is then None. */
  lemma NotFoundVerdict(corpus: Dict, part: string, ratio: (string, string) -> real)
    ensures Decide(corpus, part, ratio).status == NotFound <==>
      !ExactHit(corpus, part) && forall k :: k in corpus.keys ==> ratio(part, k) < Cutoff
    ensures Decide(corpus, part, ratio).status == NotFound ==> Decide(corpus, part, ratio).equivalent == None
  {
  }

  /**
   * Short documents are never searched: two corpora with the same keys
   * that differ only in documents that are short in both give every part
   * the same verdict, whatever those short texts contain.
   */
  lemma ShortDocumentsIgnored(c1: Dict, c2: Dict, part: string, ratio: (string, string) -> real)
    requires c1.keys == c2.keys && c1.values.Keys == c2.values.Keys
    requires forall k :: k in c1.values && (Readable(c1.values[k]) || Readable(c2.values[k])) ==> c1.values[k] == c2.values[k]
    ensures Decide(c1, part, ratio) == Decide(c2, part, ratio)
  {
    if ExactHit(c1, part) {
      var url :| url in c1.values && Readable(c1.values[url]) && ContainsIgnoreCase(c1.values[url], part);
      assert url in c2.values && c2.values[url] == c1.values[url];
    }
    if ExactHit(c2, part) {
      var url :| url in c2.values && Readable(c2.values[url]) && ContainsIgnoreCase(c2.values[url], part);
      assert url in c1.values && c1.values[url] == c2.values[url];
    }
  }

  /**
   * The data frame: the part column and the STATUS, EQUIVALENT and SIMILARS
   * columns (each cell None or a value). The other columns of the sheet are
   * not touched and are not modelled.
   */
  class Sheet {
    const parts: seq<string>
    var status: array<Option<Status>>
    var equivalent: array<Option<string>>
    var similars: array<Option<string>>

    /**
     * The three verdict columns exist, one cell per row. A freshly read
     * sheet has none; they exist once Validate has created them.
     */
    ghost predicate HasVerdictColumns()
      reads this
    {
      && status.Length == |parts|
      && equivalent.Length == |parts|
      && similars.Length == |parts|
      && equivalent != similars
    }

    /** A sheet as read from the input file: the part column and no verdict columns yet. */
    constructor (parts: seq<string>)
      ensures this.parts == parts
    {
      this.parts := parts;
      status := new Option<Status>[0];
      equivalent := new Option<string>[0];
      similars := new Option<string>[0];
    }

    /**
     * `SET_DESC(index)`: scans the corpus in order for the row's part and
     * writes this row's STATUS and EQUIVALENT cells only.
     */
    method SetDesc(corpus: Dict, ratio: (string, string) -> real, index: nat)
      requires HasVerdictColumns() && corpus.Valid() && index < |parts|
      modifies status, equivalent
      ensures status[index] == Some(Decide(corpus, parts[index], ratio).status)
      ensures equivalent[index] ==
        if Decide(corpus, parts[index], ratio).status == NotFound then old(equivalent[index])
        else Decide(corpus, parts[index], ratio).equivalent
      ensures forall j :: 0 <= j < |parts| && j != index ==>
        status[j] == old(status[j]) && equivalent[j] == old(equivalent[j])
    {
      var part := parts[index];
      var found := false;
      for i := 0 to |corpus.keys|
        invariant !found
        invariant forall j :: 0 <= j < i ==>
          !(Readable(corpus.values[corpus.keys[j]]) && ContainsIgnoreCase(corpus.values[corpus.keys[j]], part))
        invariant equivalent[index] == old(equivalent[index])
        invariant forall j :: 0 <= j < |parts| && j != index ==>
          status[j] == old(status[j]) && equivalent[j] == old(equivalent[j])
      {
        var pdfUrl := corpus.keys[i];
        var values := corpus.values[pdfUrl];
        if |values| <= OcrThreshold {
          status[index] := Some(OCR);
          continue;
        }
        if Search(part, values).Some? {
          status[index] := Some(Exact);
          equivalent[index] := Some(part);
          found := true;
          assert ExactHit(corpus, part);
          break;
        }
      }
      if !found {
        assert !ExactHit(corpus, part) by {
          forall url | url in corpus.values
            ensures !(Readable(corpus.values[url]) && ContainsIgnoreCase(corpus.values[url], part))
          {
            var j :| 0 <= j < |corpus.keys| && corpus.keys[j] == url;
          }
        }
        var dlbMatch := CloseMatch(part, corpus.keys, ratio);
        if dlbMatch.Some? {
          status[index] := Some(IncludesOrMissedSuffixes);
          equivalent[index] := Some(dlbMatch.value);
        } else {
          status[index] := Some(NotFound);
        }
      }
    }

    /**
     * `PN_Validation_New`: the three verdict columns are (re)created filled
     * with None, then every row is decided on its own. Each row ends with
     * the verdict of its own part; SIMILARS stays None everywhere.
     */
    method Validate(corpus: Dict, ratio: (string, string) -> real)
      requires corpus.Valid()
      modifies this
      ensures HasVerdictColumns()
      ensures fresh(status) && fresh(equivalent) && fresh(similars)
      ensures forall i :: 0 <= i < |parts| ==>
        && status[i] == Some(Decide(corpus, parts[i], ratio).status)
        && equivalent[i] == Decide(corpus, parts[i], ratio).equivalent
        && similars[i] == None
    {
      status := new Option<Status>[|parts|](_ => None);
      equivalent := new Option<string>[|parts|](_ => None);
      similars := new Option<string>[|parts|](_ => None);
      for index := 0 to |parts|
        invariant HasVerdictColumns()
        invariant fresh(status) && fresh(equivalent) && fresh(similars)
        invariant forall i :: 0 <= i < index ==>
          && status[i] == Some(Decide(corpus, parts[i], ratio).status)
          && equivalent[i] == Decide(corpus, parts[i], ratio).equivalent
        invariant forall i :: index <= i < |parts| ==> equivalent[i] == None
        invariant forall i :: 0 <= i < |parts| ==> similars[i] == None
      {
        SetDesc(corpus, ratio, index);
      }
    }
  }
}
