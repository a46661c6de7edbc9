/**
 * `GetPDFText`: builds the corpus, a dictionary from PDF URL to the text
 * extracted from that PDF. The URL list is processed in consecutive batches
 * of 100; within a batch every URL is fetched, and each fetched payload is
 * parsed as a PDF whose page texts are joined by newlines. A URL whose fetch
 * or parse fails gets no entry at all.
 *
 * The network fetch (`GetPDFResponse`) and the PDF parser are parameters:
 * `fetch` yields the payload or None, `parse` the list of page texts or None.
 */
module Corpus {
  import opened Wrappers

  type Url = string
  type Bytes = seq<bv8>

  /** Number of URLs per batch. */
  const BatchSize: nat := 100

  /**
   * A Python dictionary from URL to text: `keys` is its insertion order,
   * `values` its contents.
   */
  datatype Dict = Dict(keys: seq<Url>, values: map<Url, string>) {
    ghost predicate Valid() {
      && (forall i, j :: 0 <= i < j < |keys| ==> keys[i] != keys[j])
      && (forall k :: k in values <==> k in keys)
    }
  }

  /** `d[k] = v`: a new key goes to the end; an existing key keeps its place and gets the new value. */
  function Store(d: Dict, k: Url, v: string): (r: Dict)
    requires d.Valid()
    ensures r.Valid()
    ensures r.values == d.values[k := v]
    ensures k in d.values ==> r.keys == d.keys
    ensures k !in d.values ==> r.keys == d.keys + [k]
  {
    if k in d.values then Dict(d.keys, d.values[k := v])
    else Dict(d.keys + [k], d.values[k := v])
  }

  /** Total length of the page texts. */
  function TotalLength(pages: seq<string>): nat {
    if pages == [] then 0 else TotalLength(pages[..|pages| - 1]) + |pages[|pages| - 1]|
  }

  /** `'\n'.join(pages)`. */
  function Join(pages: seq<string>): string {
    if |pages| == 0 then ""
    else if |pages| == 1 then pages[0]
    else Join(pages[..|pages| - 1]) + "\n" + pages[|pages| - 1]
  }

  /**
   * The joined text is as long as all pages together plus one separator
   * between neighbouring pages; so a document of many empty pages has a
   * text of newlines only.
   */
  lemma {:induction false} JoinLength(pages: seq<string>)
    requires pages != []
    ensures |Join(pages)| == TotalLength(pages) + |pages| - 1
    decreases |pages|
  {
    if |pages| == 1 {
      assert pages[..0] == [];
    } else {
      JoinLength(pages[..|pages| - 1]);
    }
  }

  /** The text stored for one URL, or None when its fetch or its parse fails. */
  function Extract(url: Url, fetch: Url -> Option<Bytes>, parse: Bytes -> Option<seq<string>>): Option<string> {
    match fetch(url)
    case None => None
    case Some(payload) =>
      match parse(payload)
      case None => None
      case Some(pages) => Some(Join(pages))
  }

  /** The dictionary obtained by handling `urls` one after the other. */
  function Fill(urls: seq<Url>, fetch: Url -> Option<Bytes>, parse: Bytes -> Option<seq<string>>): (d: Dict)
    ensures d.Valid()
    decreases |urls|
  {
    if urls == [] then Dict([], map[])
    else
      var d := Fill(urls[..|urls| - 1], fetch, parse);
      var url := urls[|urls| - 1];
      match Extract(url, fetch, parse)
      case None => d
      case Some(text) => Store(d, url, text)
  }

  /**
   * A URL is a key of the corpus exactly when it is one of the inputs and
   * both its fetch and its parse succeed; its value is then the joined
   * page text. A failure leaves no entry.
   */
  lemma {:induction false} FillContents(urls: seq<Url>, fetch: Url -> Option<Bytes>, parse: Bytes -> Option<seq<string>>, k: Url)
    ensures k in Fill(urls, fetch, parse).values <==> k in urls && Extract(k, fetch, parse).Some?
    ensures k in Fill(urls, fetch, parse).values ==> Some(Fill(urls, fetch, parse).values[k]) == Extract(k, fetch, parse)
    decreases |urls|
  {
    if urls != [] {
      var init := urls[..|urls| - 1];
      FillContents(init, fetch, parse, k);
      assert urls == init + [urls[|urls| - 1]];
      assert k in urls <==> k in init || k == urls[|urls| - 1];
    }
  }

  /** Every key of the corpus is one of the input URLs. */
  lemma FillKeysAreInputs(urls: seq<Url>, fetch: Url -> Option<Bytes>, parse: Bytes -> Option<seq<string>>)
    ensures forall k :: k in Fill(urls, fetch, parse).keys ==> k in urls
  {
    forall k | k in Fill(urls, fetch, parse).keys ensures k in urls {
      FillContents(urls, fetch, parse, k);
    }
  }

  /** The position of the first occurrence of `k` in `urls`. */
  function FirstIndex(urls: seq<Url>, k: Url): (i: nat)
    requires k in urls
    ensures i < |urls| && urls[i] == k
    ensures forall j :: 0 <= j < i ==> urls[j] != k
  {
    if urls[0] == k then 0 else 1 + FirstIndex(urls[1..], k)
  }

  /** Appending a URL does not move the first occurrence of one already present. */
  lemma FirstIndexSnoc(urls: seq<Url>, url: Url, k: Url)
    requires k in urls
    ensures FirstIndex(urls + [url], k) == FirstIndex(urls, k)
  {
    var i := FirstIndex(urls, k);
    assert (urls + [url])[i] == k;
  }

  /**
   * The dictionary iterates its keys in the order in which their URLs
   * first appear in the input (a URL stored again keeps its place).
   */
  lemma {:induction false} FillKeyOrder(urls: seq<Url>, fetch: Url -> Option<Bytes>, parse: Bytes -> Option<seq<string>>, i: nat, j: nat)
    requires i < j < |Fill(urls, fetch, parse).keys|
    ensures Fill(urls, fetch, parse).keys[i] in urls && Fill(urls, fetch, parse).keys[j] in urls
    ensures FirstIndex(urls, Fill(urls, fetch, parse).keys[i]) < FirstIndex(urls, Fill(urls, fetch, parse).keys[j])
    decreases |urls|
  {
    var init, url := urls[..|urls| - 1], urls[|urls| - 1];
    assert urls == init + [url];
    var d, d' := Fill(init, fetch, parse), Fill(urls, fetch, parse);
    FillSnoc(init, url, fetch, parse);
    var ki, kj := d'.keys[i], d'.keys[j];
    FillContents(init, fetch, parse, ki);
    if j < |d.keys| {
      FillContents(init, fetch, parse, kj);
      FillKeyOrder(init, fetch, parse, i, j);
      FirstIndexSnoc(init, url, ki);
      FirstIndexSnoc(init, url, kj);
    } else {
      assert kj == url && url !in d.values;
      FillContents(init, fetch, parse, url);
      assert url !in init;
      FirstIndexSnoc(init, url, ki);
      assert FirstIndex(urls, url) == |init|;
    }
  }

  /** Handling one more URL at the end. */
  lemma FillSnoc(urls: seq<Url>, url: Url, fetch: Url -> Option<Bytes>, parse: Bytes -> Option<seq<string>>)
    ensures Fill(urls + [url], fetch, parse) ==
      match Extract(url, fetch, parse)
      case None => Fill(urls, fetch, parse)
      case Some(text) => Store(Fill(urls, fetch, parse), url, text)
  {
    assert (urls + [url])[..|urls|] == urls;
  }

  function Min(a: int, b: int): int {
    if a <= b then a else b
  }

  /** How many batches `range(0, n, BatchSize)` yields. */
  function NumChunks(n: nat): nat {
    (n + BatchSize - 1) / BatchSize
  }

  /** `[xs[i:i + 100] for i in range(0, len(xs), 100)]`. */
  function Chunks<T>(xs: seq<T>): (cs: seq<seq<T>>)
    ensures |cs| == NumChunks(|xs|)
    ensures forall j :: 0 <= j < |cs| ==> 0 < |cs[j]| <= BatchSize
    ensures forall j :: 0 <= j < |cs| - 1 ==> |cs[j]| == BatchSize
  {
    seq(NumChunks(|xs|), j requires 0 <= j < NumChunks(|xs|) =>
      xs[j * BatchSize .. Min(j * BatchSize + BatchSize, |xs|)])
  }

  /** Concatenation of a list of lists. */
  function Flatten<T>(css: seq<seq<T>>): seq<T> {
    if css == [] then [] else Flatten(css[..|css| - 1]) + css[|css| - 1]
  }

  lemma {:induction false} ChunksPrefix<T>(xs: seq<T>, k: nat)
    requires k <= NumChunks(|xs|)
    ensures Flatten(Chunks(xs)[..k]) == xs[..Min(k * BatchSize, |xs|)]
  {
    var cs := Chunks(xs);
    if k > 0 {
      ChunksPrefix(xs, k - 1);
      assert cs[..k][..k - 1] == cs[..k - 1];
      assert xs[..Min(k * BatchSize, |xs|)] ==
        xs[..Min((k - 1) * BatchSize, |xs|)] + xs[(k - 1) * BatchSize .. Min(k * BatchSize, |xs|)];
    }
  }

  /** The batches, concatenated in order, give back the URL list. */
  lemma ChunksFlatten<T>(xs: seq<T>)
    ensures Flatten(Chunks(xs)) == xs
  {
    ChunksPrefix(xs, NumChunks(|xs|));
    assert Chunks(xs)[..NumChunks(|xs|)] == Chunks(xs);
  }

  /**
   * The second loop of one batch (`for pdf, byt in results`): every
   * successfully fetched payload is parsed and, on success, stored under its
   * URL; a failed fetch or parse leaves the dictionary as it is.
   */
  method StoreBatch(pdfData: Dict, results: seq<(Url, Option<Bytes>)>, parse: Bytes -> Option<seq<string>>,
                    ghost done: seq<Url>, ghost batch: seq<Url>, ghost fetch: Url -> Option<Bytes>)
    returns (filled: Dict)
    requires pdfData == Fill(done, fetch, parse)
    requires |results| == |batch|
    requires forall i :: 0 <= i < |results| ==> results[i] == (batch[i], fetch(batch[i]))
    ensures filled == Fill(done + batch, fetch, parse)
  {
    filled := pdfData;
    assert done + batch[..0] == done;
    for r := 0 to |results|
      invariant filled == Fill(done + batch[..r], fetch, parse)
    {
      var (pdf, byt) := results[r];
      FillSnoc(done + batch[..r], pdf, fetch, parse);
      assert done + batch[..r + 1] == (done + batch[..r]) + [pdf];
      if byt.Some? {
        var doc := parse(byt.value);
        if doc.Some? {
          filled := Store(filled, pdf, Join(doc.value));
        }
      }
    }
    assert batch[..|results|] == batch;
  }

  /**
   * `GetPDFText`: the URL list is cut into batches; each batch is fetched
   * (its list of results) and then stored, batch after batch.
   */
  method GetPDFText(pdfs: seq<Url>, fetch: Url -> Option<Bytes>, parse: Bytes -> Option<seq<string>>)
    returns (pdfData: Dict)
    ensures pdfData == Fill(pdfs, fetch, parse)
  {
    pdfData := Dict([], map[]);
    var chunks := Chunks(pdfs);
    for c := 0 to |chunks|
      invariant pdfData == Fill(Flatten(chunks[..c]), fetch, parse)
    {
      var chunk := chunks[c];
      var results := seq(|chunk|, i requires 0 <= i < |chunk| => (chunk[i], fetch(chunk[i])));
      pdfData := StoreBatch(pdfData, results, parse, Flatten(chunks[..c]), chunk, fetch);
      assert chunks[..c + 1][..c] == chunks[..c];
    }
    assert chunks[..|chunks|] == chunks;
    ChunksFlatten(pdfs);
  }
}
