/**
 * The row assembly of `summary1v1`: the ids are fetched in batches, the
 * summaries sorted by the requested key, the characters looked up by id,
 * and the table is a fixed header followed by one row per summary.
 * Both requests are parameters: `fetchSummaries` answers one batch of ids
 * with its summaries, `fetchCharacters` answers a list of ids with the
 * characters.
 */
module Report {
  import opened Wrappers
  import opened JsString
  import opened Characters
  import opened SummarySort
  import Batching
  import ToMap

  /** `characterIds` as a caller may pass it: a single id or an array of ids. */
  datatype CharacterIds = One(id: int) | Many(ids: seq<int>)

  /** `Array.isArray(characterIds) ? characterIds : Array.of(characterIds)`. */
  function IdList(arg: CharacterIds): (r: seq<int>)
    ensures arg.One? ==> r == [arg.id]
    ensures arg.Many? ==> r == arg.ids
  {
    match arg
    case One(id) => [id]
    case Many(ids) => ids
  }

  /** A single id is sent as one request for that id alone. */
  lemma OneIdOneRequest(id: int)
    ensures Batching.Batches(IdList(One(id))) == [[id]]
  {
    assert Batching.BatchesFrom([id], 1) == [];
    assert [id][0..1] == [id];
  }

  /** A spreadsheet cell: the script's rows mix strings and numbers. */
  datatype Cell = Text(text: string) | Number(number: int)

  type Row = seq<Cell>

  const Header: Row := [Text("Name"), Text("Race"), Text("Games"), Text("Last MMR"),
                        Text("Avg MMR"), Text("Max MMR"), Text("Pulse link")]

  /** The row of one summary and its character: name, race, games, the three ratings, the link. */
  function SummaryRow(s: Summary, c: Character): (r: Row)
    ensures |r| == |Header|
  {
    [Text(CharacterName(c.name)), Text(ToLower(s.race)), Number(s.games), Number(s.ratingLast),
     Number(s.ratingAvg), Number(s.ratingMax), Text(CharacterLink(c.id))]
  }

  /** `pChar` is undefined for a summary whose character the lookup did not return, and `pChar.name` throws. */
  datatype ReportError = MissingCharacter(id: int)

  function CharacterId(c: Character): int { c.id }

  function Self(c: Character): Character { c }

  /** `summary.map(s => s.playerCharacterId)`. */
  function PlayerIds(s: seq<Summary>): (r: seq<int>)
    ensures |r| == |s| && forall i :: 0 <= i < |s| ==> r[i] == s[i].playerCharacterId
  {
    if s == [] then [] else [s[0].playerCharacterId] + PlayerIds(s[1..])
  }

  /** The summaries in the order the report lists them. */
  function SortedSummaries(characterIds: CharacterIds, sortBy: string, fetchSummaries: seq<int> -> seq<Summary>): seq<Summary>
  {
    SortSummaries(SummarySortKey(sortBy), Batching.FetchAll(fetchSummaries, Batching.Batches(IdList(characterIds))))
  }

  /** `getCharacterMap`: the characters of the listed summaries, by id. */
  function CharacterMap(fetchCharacters: seq<int> -> seq<Character>, summaries: seq<Summary>): map<int, Character>
  {
    ToMap.MapOf(fetchCharacters(PlayerIds(summaries)), CharacterId, Self)
  }

  /** The character found under an id is the character with that id, so each row links to its own summary's character. */
  lemma CharacterMapIds(fetchCharacters: seq<int> -> seq<Character>, summaries: seq<Summary>, id: int)
    requires id in CharacterMap(fetchCharacters, summaries)
    ensures CharacterMap(fetchCharacters, summaries)[id].id == id
  {
    ToMap.MapOfEntries(fetchCharacters(PlayerIds(summaries)), CharacterId, Self, id);
  }

  /** Every listed summary's character was found. */
  predicate AllFound(s: seq<Summary>, chars: map<int, Character>)
  {
    forall i :: 0 <= i < |s| ==> s[i].playerCharacterId in chars
  }

  /** `k` is the first summary whose character was not found. */
  predicate FirstMissing(s: seq<Summary>, chars: map<int, Character>, k: int)
  {
    && 0 <= k < |s| && s[k].playerCharacterId !in chars
    && forall j :: 0 <= j < k ==> s[j].playerCharacterId in chars
  }

  /** The table: the header, then the row of each summary in order. */
  predicate IsReport(rows: seq<Row>, s: seq<Summary>, chars: map<int, Character>)
    requires AllFound(s, chars)
  {
    && |rows| == |s| + 1
    && rows[0] == Header
    && forall i :: 0 <= i < |s| ==> rows[i + 1] == SummaryRow(s[i], chars[s[i].playerCharacterId])
  }

  /** The loop of `summary1v1` that pushes the header and then one row per summary. */
  method BuildRows(summary: seq<Summary>, characters: map<int, Character>)
    returns (r: Result<seq<Row>, ReportError>)
    ensures r.Success? <==> AllFound(summary, characters)
    ensures r.Success? ==> IsReport(r.value, summary, characters)
    ensures r.Failure? ==> exists k :: FirstMissing(summary, characters, k) && r.error == MissingCharacter(summary[k].playerCharacterId)
  {
    var rows := [Header];
    var i := 0;
    while i < |summary|
      invariant i <= |summary|
      invariant AllFound(summary[..i], characters)
      invariant IsReport(rows, summary[..i], characters)
    {
      var id := summary[i].playerCharacterId;
      if id !in characters {
        assert FirstMissing(summary, characters, i) by {
          forall j | 0 <= j < i ensures summary[j].playerCharacterId in characters {
            assert summary[..i][j] == summary[j];
          }
        }
        return Failure(MissingCharacter(id));
      }
      assert summary[..i + 1] == summary[..i] + [summary[i]];
      rows := rows + [SummaryRow(summary[i], characters[id])];
      i := i + 1;
    }
    assert summary[..i] == summary;
    return Success(rows);
  }

  /**
   * `summary1v1`, with the two requests as parameters. It fails exactly
   * when a listed summary's character is missing from the lookup, naming
   * the first such character; otherwise it returns the header and one row
   * per summary in sorted order.
   */
  method Summary1v1(characterIds: CharacterIds, sortBy: string,
                    fetchSummaries: seq<int> -> seq<Summary>,
                    fetchCharacters: seq<int> -> seq<Character>)
    returns (r: Result<seq<Row>, ReportError>)
    ensures var s := SortedSummaries(characterIds, sortBy, fetchSummaries);
            var chars := CharacterMap(fetchCharacters, s);
            && (r.Success? <==> AllFound(s, chars))
            && (r.Success? ==> IsReport(r.value, s, chars))
            && (r.Failure? ==> exists k :: FirstMissing(s, chars, k) && r.error == MissingCharacter(s[k].playerCharacterId))
  {
    var ids := IdList(characterIds);
    var fetched, _ := Batching.GetSummaries(ids, fetchSummaries);
    var summary := SortSummaries(SummarySortKey(sortBy), fetched);
    var characters := ToMap.ToMap(fetchCharacters(PlayerIds(summary)), CharacterId, Self);
    r := BuildRows(summary, characters);
  }

  /** Every row of a report, the header included, has the header's seven columns. */
  lemma ReportRowWidth(rows: seq<Row>, s: seq<Summary>, chars: map<int, Character>)
    requires AllFound(s, chars) && IsReport(rows, s, chars)
    ensures forall k :: 0 <= k < |rows| ==> |rows[k]| == 7
  {
    forall k | 0 < k < |rows| ensures |rows[k]| == 7 {
      assert rows[k] == SummaryRow(s[k - 1], chars[s[k - 1].playerCharacterId]);
    }
  }
}
