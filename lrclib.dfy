/** The pure parts of the lrclib.net lookup: which search result is taken,
    and which lyric field of that result is returned. */
module Lrclib {
  import opened Wrappers
  import opened Text

  const OK_STATUS := 200
  const SYNCED_LYRICS := "syncedLyrics"
  const PLAIN_LYRICS := "plainLyrics"

  /** One search result: a JSON object whose string fields are kept; a JSON
      null is None. */
  type Record = map<string, Option<string>>

  /** dict.get: a missing key reads as None. */
  function Get(rec: Record, key: string): (r: Option<string>)
    ensures key !in rec ==> r == None
    ensures key in rec ==> r == rec[key]
  {
    if key in rec then rec[key] else None
  }

  /** What the HTTP call delivered: the status code and the decoded JSON list,
      None when the body did not decode; an element is None for a JSON null. */
  datatype Response = Response(status: int, body: Option<seq<Option<Record>>>)

  /** Listing the first three results under --debug calls .get on each of
      them, which raises AttributeError on a JSON null. */
  predicate NullInFirstThree(results: seq<Option<Record>>) {
    exists i :: 0 <= i < |results| && i < 3 && results[i].None?
  }

  /** The selection tail of search_lrclib: resp is None when the request raised.
      Under --debug a null among the first three results raises, and the
      handler turns that into None. Otherwise no ranking is done: the first
      element, if any, is the answer. */
  function SelectResult(resp: Option<Response>, debug: bool): (r: Option<Record>)
    ensures resp.None? ==> r == None
    ensures resp.Some? && resp.value.status != OK_STATUS ==> r == None
    ensures resp.Some? && resp.value.body.None? ==> r == None
    ensures resp.Some? && resp.value.body.Some? && resp.value.body.value == [] ==> r == None
    ensures debug && resp.Some? && resp.value.body.Some? && NullInFirstThree(resp.value.body.value) ==> r == None
    ensures r.Some? ==>
      resp.Some? && resp.value.status == OK_STATUS && resp.value.body.Some? &&
      resp.value.body.value != [] && resp.value.body.value[0] == r
  {
    match resp
    case None => None
    case Some(response) =>
      if response.status != OK_STATUS then None
      else match response.body
        case None => None
        case Some(results) =>
          if debug && NullInFirstThree(results) then None
          else if |results| > 0 then results[0] else None
  }

  /** Only the first element matters: whatever follows it is ignored. */
  lemma SelectFirstOnly(first: Option<Record>, rest: seq<Option<Record>>)
    ensures SelectResult(Some(Response(OK_STATUS, Some([first] + rest))), false) == first
  {
    assert ([first] + rest)[0] == first;
  }

  /** A successful answer with an empty list finds nothing, and so does any
      other status, whatever the body holds. */
  lemma NothingSelected(status: int, body: Option<seq<Option<Record>>>, debug: bool)
    requires status != OK_STATUS || body == Some([])
    ensures SelectResult(Some(Response(status, body)), debug) == None
  {
  }

  /** --debug changes the answer only through a null among the first three
      results; otherwise it selects what a quiet run selects. */
  lemma DebugOnlyMattersForNulls(resp: Option<Response>)
    requires resp.Some? && resp.value.body.Some? ==> !NullInFirstThree(resp.value.body.value)
    ensures SelectResult(resp, true) == SelectResult(resp, false)
  {
  }

  /** The answer [rec, null]: a quiet run selects rec, a --debug run nothing. */
  lemma DebugNullSelectsNothing(rec: Record)
    ensures SelectResult(Some(Response(OK_STATUS, Some([Some(rec), None]))), false) == Some(rec)
    ensures SelectResult(Some(Response(OK_STATUS, Some([Some(rec), None]))), true) == None
  {
    assert [Some(rec), None][1].None?;
  }

  /** get_lrc_from_result: a non-empty syncedLyrics, else a non-empty
      plainLyrics, else nothing; a missing or empty result gives nothing. */
  function LyricsOf(result: Option<Record>): (r: Option<string>)
    ensures r.Some? ==> r.value != []
    ensures r.Some? ==>
      result.Some? && (r == Get(result.value, SYNCED_LYRICS) || r == Get(result.value, PLAIN_LYRICS))
    ensures result.None? || result.value == map[] ==> r == None
  {
    if result.None? || result.value == map[] then None
    else if Truthy(Get(result.value, SYNCED_LYRICS)) then Get(result.value, SYNCED_LYRICS)
    else if Truthy(Get(result.value, PLAIN_LYRICS)) then Get(result.value, PLAIN_LYRICS)
    else None
  }

  /** Synced lyrics win, whatever the plain lyrics hold. */
  lemma SyncedWins(rec: Record, plain: Option<string>)
    requires Truthy(Get(rec, SYNCED_LYRICS))
    ensures LyricsOf(Some(rec)) == Get(rec, SYNCED_LYRICS)
    ensures LyricsOf(Some(rec[PLAIN_LYRICS := plain])) == Get(rec, SYNCED_LYRICS)
  {
    var rec' := rec[PLAIN_LYRICS := plain];
    assert SYNCED_LYRICS in rec' && rec'[SYNCED_LYRICS] == rec[SYNCED_LYRICS];
  }

  /** Without usable synced lyrics, non-empty plain lyrics are returned exactly. */
  lemma PlainFallback(rec: Record)
    requires !Truthy(Get(rec, SYNCED_LYRICS)) && Truthy(Get(rec, PLAIN_LYRICS))
    ensures LyricsOf(Some(rec)) == Get(rec, PLAIN_LYRICS)
  {
    assert PLAIN_LYRICS in rec;
  }

  /** Nothing is returned exactly when neither field holds a non-empty string. */
  lemma NoLyrics(result: Option<Record>)
    ensures LyricsOf(result).None? <==>
      result.None? || (!Truthy(Get(result.value, SYNCED_LYRICS)) && !Truthy(Get(result.value, PLAIN_LYRICS)))
  {
  }

  /** Fields other than the two lyric fields never influence the choice. */
  lemma OtherFieldsIgnored(rec: Record, key: string, v: Option<string>)
    requires key != SYNCED_LYRICS && key != PLAIN_LYRICS
    ensures LyricsOf(Some(rec[key := v])) == LyricsOf(Some(rec))
  {
    var rec' := rec[key := v];
    assert Get(rec', SYNCED_LYRICS) == Get(rec, SYNCED_LYRICS);
    assert Get(rec', PLAIN_LYRICS) == Get(rec, PLAIN_LYRICS);
  }

  /** The lookup the script's lrclib helpers add up to: the first search result's
      lyrics. A failed, empty or non-200 search yields no lyrics. */
  function FetchLyrics(resp: Option<Response>, debug: bool): (r: Option<string>)
    ensures r.Some? ==> r.value != []
    ensures SelectResult(resp, debug).None? ==> r == None
  {
    LyricsOf(SelectResult(resp, debug))
  }
}
