/**
 * Character records, the display name cut from a battle tag
 * (`getCharacterName`) and the character's profile link on the site
 * (`getCharacterLink`).
 */
module Characters {
  import opened Wrappers
  import opened JsString

  /** A character identity as the API returns it; `name` is "Battletag#Discriminator". */
  datatype Character = Character(id: int, name: string)

  const UrlRoot: string := "https://sc2pulse.nephest.com/sc2"
  const ApiRoot: string := UrlRoot + "/api"

  /**
   * `name.substring(0, name.indexOf("#"))`: the part of the name before its
   * first '#'. A name without '#' gives "" rather than the whole name,
   * because indexOf answers -1 and substring clamps -1 to 0.
   */
  function CharacterName(name: string): (r: string)
    ensures '#' !in name ==> r == []
    ensures '#' in name ==> |r| < |name| && name[..|r|] == r && name[|r|] == '#' && '#' !in r
  {
    Substring(name, 0, IndexOf(name, '#'))
  }

  lemma CharacterNameExample()
    ensures CharacterName("Serral#1234") == "Serral"
    ensures CharacterName("Serral") == ""
  {
    assert "Serral#1234" == "Serral" + "#" + "1234";
    CharacterNameOfTag("Serral", "1234");
  }

  /** The name is cut at the first '#' only: a later '#' stays out of the result and nothing of the tag part reaches it. */
  lemma CharacterNameOfTag(tag: string, discriminator: string)
    requires '#' !in tag
    ensures CharacterName(tag + "#" + discriminator) == tag
  {
    var name := tag + "#" + discriminator;
    assert name[|tag|] == '#';
    assert name[..|tag|] == tag;
  }

  const LinkPrefix: string := UrlRoot + "/?type=character&id="
  const LinkSuffix: string := "&m=1#player-stats-mmr"

  /**
   * `getCharacterLink`: the fixed template around the id's decimal text.
   * `encodeURIComponent` leaves '-' and the digits as they are, so the text
   * goes in unescaped.
   */
  function CharacterLink(id: int): (r: string)
    ensures |r| > |LinkPrefix| + |LinkSuffix|
    ensures r[..|LinkPrefix|] == LinkPrefix && r[|r| - |LinkSuffix|..] == LinkSuffix
  {
    LinkPrefix + IntToDecimal(id) + LinkSuffix
  }

  /** Reads the id back from a profile link (the partner of CharacterLink). */
  function LinkId(link: string): Option<int>
  {
    if |link| >= |LinkPrefix| + |LinkSuffix| && link[..|LinkPrefix|] == LinkPrefix
       && link[|link| - |LinkSuffix|..] == LinkSuffix
    then ParseInt(link[|LinkPrefix|..|link| - |LinkSuffix|])
    else None
  }

  lemma LinkRoundTrip(id: int)
    ensures LinkId(CharacterLink(id)) == Some(id)
  {
    var d := IntToDecimal(id);
    var link := CharacterLink(id);
    assert link[|LinkPrefix|..|link| - |LinkSuffix|] == d;
    IntDecimalRoundTrip(id);
  }

  /** Different characters get different links. */
  lemma LinkInjective(a: int, b: int)
    ensures CharacterLink(a) == CharacterLink(b) ==> a == b
  {
    LinkRoundTrip(a);
    LinkRoundTrip(b);
  }
}
