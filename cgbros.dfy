/** The query scoring and result assembly of the CGBros playback skill
    (class `CGBrosSkill`). The archive, the vocabulary services and the
    fuzzy matcher of the framework are inputs: the archive as its two
    sequences, `voc_match(phrase, "cgbros")` as a boolean, `remove_voc` as
    a string function and `fuzzy_match` as a ratio function. */
module CGBros {
  import opened PyStr

  datatype Option<T> = None | Some(value: T)

  /** The media types the skill tells apart; every other type of the
      playback framework is an `OtherMedia`. */
  datatype MediaType = ShortFilm | Generic | OtherMedia(code: nat)

  datatype PlaybackType = Video

  /** One record of the archive database. */
  datatype VideoRecord = VideoRecord(title: string, thumbnail: string, url: string)

  /** The archive as the skill reads it: `db.items()` in the database's
      order, and `sorted_entries()` in the order the archive returns. */
  datatype Archive = Archive(db: seq<(string, VideoRecord)>, sortedEntries: seq<VideoRecord>)

  /** What the framework gives the skill: its icon (also its default
      background) and its identifier. */
  datatype Skill = Skill(icon: string, skillId: string) {
    function DefaultBg(): string {
      icon
    }
  }

  /** The result dictionaries the skill hands to the framework: a single
      video, or the aggregate playlist. */
  datatype MatchResult =
    | Media(title: string, author: Option<string>, confidence: real,
            mediaType: MediaType, uri: string, playback: PlaybackType,
            skillIcon: string, skillId: string, image: string, bgImage: string)
    | Playlist(title: string, author: Option<string>, confidence: real,
               mediaType: MediaType, playlist: seq<MatchResult>, playback: PlaybackType,
               skillIcon: string, image: string, bgImage: string)

  const Author := "The CGBros"
  const PlaylistTitle := "The CGBros (Movie Playlist)"
  const UriPrefix := "youtube//"
  const FeaturedConfidence: real := 70.0
  /** `get_playlist`'s default `num_entries`, the one `search_db` uses. */
  const PlaylistSize := 250

  // ---------------------------------------------------------------------
  // match_skill

  /** The skill's base score: 10 for a short-film request, 50 when the
      phrase names the CGBros vocabulary. */
  function SkillScore(mediaType: MediaType, cgbrosVoc: bool): (r: int)
    ensures r in {0, 10, 50, 60}
    ensures r >= 50 <==> cgbrosVoc
    ensures (r == 10 || r == 60) <==> mediaType == ShortFilm
  {
    (if mediaType == ShortFilm then 10 else 0) + (if cgbrosVoc then 50 else 0)
  }

  method MatchSkill(mediaType: MediaType, cgbrosVoc: bool) returns (score: int)
    ensures score == SkillScore(mediaType, cgbrosVoc)
  {
    score := 0;
    if mediaType == ShortFilm {
      score := score + 10;
    }
    if cgbrosVoc {
      score := score + 50;
    }
  }

  // ---------------------------------------------------------------------
  // normalize_title

  /** `remove_voc` is only trusted to delete text: whatever it returns has
      no character its input lacked. */
  ghost predicate IntroducesNoChar(removeVoc: string -> string) {
    forall s, c :: c in removeVoc(s) ==> c in s
  }

  /** The three characters and the two three-character literals that the
      title clean-up deletes, in the order it deletes them. */
  function CleanUp(t: string): string {
    Strip(Remove(Remove(Remove(Remove(Remove(t, "|"), "\""), ":"), "???"), "???"))
  }

  /** The title after lower-casing, stripping, vocabulary removal, the
      character clean-up and the space collapsing. */
  function Normalized(title: string, removeVoc: string -> string): string {
    Collapse(CleanUp(removeVoc(Strip(Lower(title)))))
  }

  method NormalizeTitle(title: string, removeVoc: string -> string) returns (r: string)
    ensures r == Normalized(title, removeVoc)
  {
    var t := Strip(Lower(title));
    t := removeVoc(t);
    t := Strip(Remove(Remove(Remove(Remove(Remove(t, "|"), "\""), ":"), "???"), "???"));
    r := Collapse(t);
  }

  /** What the clean-up leaves: none of the deleted characters and literals,
      no whitespace at either end. */
  lemma CleanUpShape(t: string)
    ensures var u := CleanUp(t);
      '|' !in u && '"' !in u && ':' !in u && Free(u, "???")
      && (u == [] || (!IsSpace(u[0]) && !IsSpace(u[|u| - 1])))
  {
    var a := Remove(t, "|");
    var b := Remove(a, "\"");
    var c := Remove(b, ":");
    var d := Remove(c, "???");
    assert "|" == ['|'] && "\"" == ['"'] && ":" == [':'] && "???" == ['?', '?', '?'];
    RemoveChar(t, '|');
    RemoveChar(a, '"');
    RemoveChar(b, ':');
    RemoveChars(a, "\"");
    RemoveChars(b, ":");
    RemoveChars(c, "???");
    RemoveTripleFree(c, '?');
    RemoveNoop(d, "???");
    StripChars(d);
    FreeStrip(d, "???");
  }

  /** Collapsing the spaces of a cleaned-up text keeps it clean, leaves no
      two adjacent spaces and no empty word. */
  lemma CollapseCleaned(t: string)
    requires '|' !in t && '"' !in t && ':' !in t && Free(t, "???")
    requires t == [] || (!IsSpace(t[0]) && !IsSpace(t[|t| - 1]))
    ensures var r := Collapse(t);
      '|' !in r && '"' !in r && ':' !in r && Free(r, "???") && Free(r, "  ")
      && (r == [] || (!IsSpace(r[0]) && !IsSpace(r[|r| - 1])))
      && (r != [] ==> forall w :: w in Split(r) ==> w != [])
  {
    CollapseChars(t);
    CollapseFree(t, "???");
    CollapseNoDoubleSpace(t);
    if t == [] {
      assert Split(t) == [[]];
    } else {
      CollapseEnds(t);
      CollapseWords(t);
    }
  }

  /** Whatever `remove_voc` returns, the clean-up and the space collapsing
      after it leave no `|`, `"`, `:` or `???`, no two adjacent spaces, no
      whitespace at either end and no empty word. */
  lemma CleanedShape(u: string)
    ensures var r := Collapse(CleanUp(u));
      '|' !in r && '"' !in r && ':' !in r && Free(r, "???") && Free(r, "  ")
      && (r == [] || (!IsSpace(r[0]) && !IsSpace(r[|r| - 1])))
      && (r != [] ==> forall w :: w in Split(r) ==> w != [])
  {
    CleanUpShape(u);
    CollapseCleaned(CleanUp(u));
  }

  /** A normalised title holds no `|`, `"`, `:` or `???`, no two adjacent
      spaces and no whitespace at either end, and splitting it at spaces
      gives no empty word. */
  lemma NormalizedShape(title: string, removeVoc: string -> string)
    ensures var r := Normalized(title, removeVoc);
      '|' !in r && '"' !in r && ':' !in r && Free(r, "???") && Free(r, "  ")
      && (r == [] || (!IsSpace(r[0]) && !IsSpace(r[|r| - 1])))
      && (r != [] ==> forall w :: w in Split(r) ==> w != [])
  {
    CleanedShape(removeVoc(Strip(Lower(title))));
  }

  /** With a `remove_voc` that only deletes, a normalised title is lower
      case. */
  lemma NormalizedLowercase(title: string, removeVoc: string -> string)
    requires IntroducesNoChar(removeVoc)
    ensures forall c :: c in Normalized(title, removeVoc) ==> !IsUpper(c)
  {
    var v := removeVoc(Strip(Lower(title)));
    var a := Remove(v, "|");
    var b := Remove(a, "\"");
    var c := Remove(b, ":");
    var d := Remove(c, "???");
    var e := Remove(d, "???");
    StripChars(Lower(title));
    RemoveChars(v, "|");
    RemoveChars(a, "\"");
    RemoveChars(b, ":");
    RemoveChars(c, "???");
    RemoveChars(d, "???");
    StripChars(e);
    CollapseChars(CleanUp(v));
  }

  /** The words of a normalised title are, in order and with repetitions,
      the non-empty words of the cleaned-up text. */
  lemma NormalizedWords(title: string, removeVoc: string -> string)
    requires NonEmpty(Split(CleanUp(removeVoc(Strip(Lower(title)))))) != []
    ensures Split(Normalized(title, removeVoc))
         == NonEmpty(Split(CleanUp(removeVoc(Strip(Lower(title))))))
  {
    CollapseWords(CleanUp(removeVoc(Strip(Lower(title)))));
  }

  /** A text without the vertical bar, `"` and `:`, and without `???`, comes
      out of the clean-up merely stripped: nothing else is deleted. */
  lemma CleanUpKeeps(u: string)
    requires '|' !in u && '"' !in u && ':' !in u && Free(u, "???")
    ensures CleanUp(u) == Strip(u)
  {
    assert "|" == ['|'] && "\"" == ['"'] && ":" == [':'];
    FreeChar(u, '|');
    FreeChar(u, '"');
    FreeChar(u, ':');
    RemoveNoop(u, "|");
    RemoveNoop(u, "\"");
    RemoveNoop(u, ":");
    RemoveNoop(u, "???");
  }

  /** Every text that is already clean is its own normalisation: ASCII lower
      case, no vertical bar, `"`, `:` or `???`, no whitespace at the ends, no
      empty word, and nothing left for `remove_voc` to delete. */
  lemma NormalizeFixpoint(t: string, removeVoc: string -> string)
    requires forall c :: c in t ==> !IsUpper(c)
    requires '|' !in t && '"' !in t && ':' !in t && Free(t, "???")
    requires t == [] || (!IsSpace(t[0]) && !IsSpace(t[|t| - 1]))
    requires t != [] ==> forall w :: w in Split(t) ==> w != []
    requires removeVoc(t) == t
    ensures Normalized(t, removeVoc) == t
  {
    LowerNoop(t);
    StripNoop(t);
    CleanUpKeeps(t);
    if t == [] {
      assert Split(t) == [[]];
      NonEmptySingle([]);
    } else {
      NonEmptyNoop(Split(t));
      JoinSplit(t);
    }
  }

  /** Normalising a normalised title returns it unchanged, provided
      `remove_voc` only deletes and finds nothing more to delete in it. */
  lemma NormalizeIdempotent(title: string, removeVoc: string -> string)
    requires IntroducesNoChar(removeVoc)
    requires removeVoc(Normalized(title, removeVoc)) == Normalized(title, removeVoc)
    ensures Normalized(Normalized(title, removeVoc), removeVoc) == Normalized(title, removeVoc)
  {
    NormalizedShape(title, removeVoc);
    NormalizedLowercase(title, removeVoc);
    NormalizeFixpoint(Normalized(title, removeVoc), removeVoc);
  }

  // ---------------------------------------------------------------------
  // calc_score

  /** The base score plus 100 times the fuzzy ratio of the lower-cased
      phrase and title, capped at 100; with a non-negative ratio and a base
      score of at most 100 it is never below the base score. */
  function CalcScore(phrase: string, video: VideoRecord, baseScore: int,
                     fuzzy: (string, string) -> real): (r: real)
    ensures r <= 100.0
    ensures r <= baseScore as real + 100.0 * fuzzy(Lower(phrase), Lower(video.title))
    ensures r == 100.0 || r == baseScore as real + 100.0 * fuzzy(Lower(phrase), Lower(video.title))
    ensures baseScore <= 100 && 0.0 <= fuzzy(Lower(phrase), Lower(video.title)) ==> baseScore as real <= r
  {
    var score := baseScore as real + 100.0 * fuzzy(Lower(phrase), Lower(video.title));
    if score < 100.0 then score else 100.0
  }

  // ---------------------------------------------------------------------
  // featured_media

  function FeaturedEntry(skill: Skill, video: VideoRecord): MatchResult {
    Media(video.title, None, FeaturedConfidence, ShortFilm, UriPrefix + video.url, Video,
          skill.icon, skill.skillId, video.thumbnail, video.thumbnail)
  }

  /** One short-film result per entry of `sorted_entries()`, in that order,
      each with confidence 70 and the entry's url behind `youtube//`. */
  function FeaturedMedia(skill: Skill, archive: Archive): (r: seq<MatchResult>)
    ensures |r| == |archive.sortedEntries|
    ensures forall i :: 0 <= i < |r| ==>
      var v := archive.sortedEntries[i];
      r[i].Media? && r[i].confidence == 70.0 && r[i].uri == UriPrefix + v.url
      && r[i].title == v.title && r[i].image == v.thumbnail && r[i].mediaType == ShortFilm
  {
    var es := archive.sortedEntries;
    seq(|es|, i requires 0 <= i < |es| => FeaturedEntry(skill, es[i]))
  }

  /** Prefixing with `youtube//` keeps distinct urls distinct. */
  lemma UriInjective(a: string, b: string)
    requires UriPrefix + a == UriPrefix + b
    ensures a == b
  {
    assert a == (UriPrefix + a)[|UriPrefix|..];
    assert b == (UriPrefix + b)[|UriPrefix|..];
  }

  /** Entries with distinct urls become results with distinct uris. */
  lemma FeaturedUrisDistinct(skill: Skill, archive: Archive)
    requires forall i, j :: 0 <= i < j < |archive.sortedEntries| ==>
      archive.sortedEntries[i].url != archive.sortedEntries[j].url
    ensures var r := FeaturedMedia(skill, archive);
      forall i, j :: 0 <= i < j < |r| ==> r[i].uri != r[j].uri
  {
    var r := FeaturedMedia(skill, archive);
    var es := archive.sortedEntries;
    forall i, j | 0 <= i < j < |r| ensures r[i].uri != r[j].uri {
      if r[i].uri == r[j].uri {
        UriInjective(es[i].url, es[j].url);
      }
    }
  }

  // ---------------------------------------------------------------------
  // get_playlist

  /** Python's `s[:n]`: the first `n` elements, or, for a negative `n`, all
      but the last `-n`. */
  function PrefixSlice<T>(s: seq<T>, n: int): (r: seq<T>)
    ensures n >= 0 ==> |r| == (if n < |s| then n else |s|)
    ensures n < 0 ==> |r| == (if |s| + n > 0 then |s| + n else 0)
    ensures r == s[..|r|]
  {
    if n >= 0 then (if n < |s| then s[..n] else s)
    else if |s| + n > 0 then s[..|s| + n]
    else []
  }

  /** The playlist result: the first `numEntries` featured results in their
      order, under the CGBros title and author, with confidence `score`. */
  function GetPlaylist(skill: Skill, archive: Archive, score: int, numEntries: int): (r: MatchResult)
    ensures r.Playlist? && r.confidence == score as real && r.mediaType == ShortFilm
    ensures r.title == PlaylistTitle && r.author == Some(Author)
    ensures var f := FeaturedMedia(skill, archive);
      && (numEntries >= 0 ==> |r.playlist| == (if numEntries < |f| then numEntries else |f|))
      && (numEntries < 0 ==> |r.playlist| == (if |f| + numEntries > 0 then |f| + numEntries else 0))
      && r.playlist == f[..|r.playlist|]
  {
    Playlist(PlaylistTitle, Some(Author), score as real, ShortFilm,
             PrefixSlice(FeaturedMedia(skill, archive), numEntries), Video,
             skill.icon, skill.icon, skill.DefaultBg())
  }

  // ---------------------------------------------------------------------
  // search_db

  function SearchEntry(skill: Skill, url: string, video: VideoRecord, confidence: real): MatchResult {
    Media(video.title, Some(Author), confidence, ShortFilm, UriPrefix + url, Video,
          skill.icon, skill.skillId, video.thumbnail, skill.DefaultBg())
  }

  /** The results of the `for` loop of `search_db`: one per database entry,
      in database order, scored against `query`. */
  function ScoredEntries(skill: Skill, db: seq<(string, VideoRecord)>, query: string,
                         baseScore: int, fuzzy: (string, string) -> real): seq<MatchResult> {
    seq(|db|, i requires 0 <= i < |db| =>
      SearchEntry(skill, db[i].0, db[i].1, CalcScore(query, db[i].1, baseScore, fuzzy)))
  }

  /** Everything `search_db` yields for one query, in the order it yields it. */
  function SearchResults(skill: Skill, archive: Archive, phrase: string, mediaType: MediaType,
                         cgbrosVoc: bool, removeVoc: string -> string,
                         fuzzy: (string, string) -> real): seq<MatchResult> {
    var baseScore := SkillScore(mediaType, cgbrosVoc);
    (if cgbrosVoc then [GetPlaylist(skill, archive, baseScore, PlaylistSize)] else [])
    + (if mediaType == ShortFilm
       then ScoredEntries(skill, archive.db, Normalized(phrase, removeVoc), baseScore, fuzzy)
       else [])
  }

  /** The `for` loop of `search_db`, step by step. */
  method SearchEntries(skill: Skill, db: seq<(string, VideoRecord)>, query: string,
                       baseScore: int, fuzzy: (string, string) -> real)
    returns (entries: seq<MatchResult>)
    ensures entries == ScoredEntries(skill, db, query, baseScore, fuzzy)
  {
    ghost var spec := ScoredEntries(skill, db, query, baseScore, fuzzy);
    entries := [];
    var i := 0;
    while i < |db|
      invariant 0 <= i <= |db|
      invariant entries == spec[..i]
    {
      var (url, video) := db[i];
      entries := entries + [SearchEntry(skill, url, video, CalcScore(query, video, baseScore, fuzzy))];
      i := i + 1;
    }
    assert spec[..|db|] == spec;
  }

  /** `search_db`: scores the request with `match_skill`, yields the playlist
      when the phrase names CGBros, and, for a short-film request only,
      normalises the phrase and yields one scored result per database entry. */
  method SearchDb(skill: Skill, archive: Archive, phrase: string, mediaType: MediaType,
                  cgbrosVoc: bool, removeVoc: string -> string,
                  fuzzy: (string, string) -> real)
    returns (results: seq<MatchResult>)
    ensures results == SearchResults(skill, archive, phrase, mediaType, cgbrosVoc, removeVoc, fuzzy)
  {
    var baseScore := MatchSkill(mediaType, cgbrosVoc);
    results := [];
    if cgbrosVoc {
      results := [GetPlaylist(skill, archive, baseScore, PlaylistSize)];
    }
    if mediaType == ShortFilm {
      var query := NormalizeTitle(phrase, removeVoc);
      var entries := SearchEntries(skill, archive.db, query, baseScore, fuzzy);
      results := results + entries;
    }
  }

  /** One result for the vocabulary match, one per database entry for a
      short-film request, and nothing else. */
  lemma SearchLength(skill: Skill, archive: Archive, phrase: string, mediaType: MediaType,
                     cgbrosVoc: bool, removeVoc: string -> string,
                     fuzzy: (string, string) -> real)
    ensures |SearchResults(skill, archive, phrase, mediaType, cgbrosVoc, removeVoc, fuzzy)|
         == (if cgbrosVoc then 1 else 0) + (if mediaType == ShortFilm then |archive.db| else 0)
    ensures !cgbrosVoc && mediaType != ShortFilm ==>
      SearchResults(skill, archive, phrase, mediaType, cgbrosVoc, removeVoc, fuzzy) == []
  {
  }

  /** The playlist is yielded exactly when the phrase names CGBros, and then
      first, with the request's `match_skill` score (60 for a short film,
      50 otherwise); every other result is a single video. */
  lemma SearchPlaylistFirst(skill: Skill, archive: Archive, phrase: string, mediaType: MediaType,
                            cgbrosVoc: bool, removeVoc: string -> string,
                            fuzzy: (string, string) -> real)
    ensures var r := SearchResults(skill, archive, phrase, mediaType, cgbrosVoc, removeVoc, fuzzy);
      forall k :: 0 <= k < |r| ==> (r[k].Playlist? <==> cgbrosVoc && k == 0)
    ensures var r := SearchResults(skill, archive, phrase, mediaType, cgbrosVoc, removeVoc, fuzzy);
      cgbrosVoc ==>
        r[0] == GetPlaylist(skill, archive, SkillScore(mediaType, cgbrosVoc), PlaylistSize)
        && r[0].confidence == (if mediaType == ShortFilm then 60.0 else 50.0)
  {
    var r := SearchResults(skill, archive, phrase, mediaType, cgbrosVoc, removeVoc, fuzzy);
    var head := if cgbrosVoc then [GetPlaylist(skill, archive, SkillScore(mediaType, cgbrosVoc), PlaylistSize)] else [];
    assert forall k :: |head| <= k < |r| ==> r[k].Media?;
  }

  /** For a short-film request, the database entry at position `i` becomes
      the result right after the optional playlist: its title, thumbnail,
      `youtube//` URI and the CGBros author, scored by `calc_score` against
      the normalised phrase and never above 100. */
  lemma SearchEntryShape(skill: Skill, archive: Archive, phrase: string, mediaType: MediaType,
                         cgbrosVoc: bool, removeVoc: string -> string,
                         fuzzy: (string, string) -> real, i: int)
    requires mediaType == ShortFilm && 0 <= i < |archive.db|
    ensures var r := SearchResults(skill, archive, phrase, mediaType, cgbrosVoc, removeVoc, fuzzy);
      var video := archive.db[i].1;
      var res := r[(if cgbrosVoc then 1 else 0) + i];
      res.Media? && res.uri == UriPrefix + archive.db[i].0 && res.title == video.title
      && res.image == video.thumbnail && res.author == Some(Author) && res.mediaType == ShortFilm
      && res.confidence == CalcScore(Normalized(phrase, removeVoc), video,
                                     SkillScore(mediaType, cgbrosVoc), fuzzy)
      && res.confidence <= 100.0
  {
  }

  /** Distinct database keys give the scored entries distinct uris. */
  lemma ScoredUrisDistinct(skill: Skill, db: seq<(string, VideoRecord)>, query: string,
                           baseScore: int, fuzzy: (string, string) -> real)
    requires forall i, j :: 0 <= i < j < |db| ==> db[i].0 != db[j].0
    ensures var e := ScoredEntries(skill, db, query, baseScore, fuzzy);
      forall i, j :: 0 <= i < j < |e| ==> e[i].uri != e[j].uri
  {
    var e := ScoredEntries(skill, db, query, baseScore, fuzzy);
    forall i, j | 0 <= i < j < |e| ensures e[i].uri != e[j].uri {
      if e[i].uri == e[j].uri {
        UriInjective(db[i].0, db[j].0);
      }
    }
  }

  /** Distinct database keys give the yielded videos distinct uris. */
  lemma SearchUrisDistinct(skill: Skill, archive: Archive, phrase: string, mediaType: MediaType,
                           cgbrosVoc: bool, removeVoc: string -> string,
                           fuzzy: (string, string) -> real)
    requires forall i, j :: 0 <= i < j < |archive.db| ==> archive.db[i].0 != archive.db[j].0
    ensures var r := SearchResults(skill, archive, phrase, mediaType, cgbrosVoc, removeVoc, fuzzy);
      forall i, j :: 0 <= i < j < |r| && r[i].Media? && r[j].Media? ==> r[i].uri != r[j].uri
  {
    var r := SearchResults(skill, archive, phrase, mediaType, cgbrosVoc, removeVoc, fuzzy);
    var base := SkillScore(mediaType, cgbrosVoc);
    var head := if cgbrosVoc then [GetPlaylist(skill, archive, base, PlaylistSize)] else [];
    var query := Normalized(phrase, removeVoc);
    var e := if mediaType == ShortFilm then ScoredEntries(skill, archive.db, query, base, fuzzy) else [];
    assert r == head + e;
    if mediaType == ShortFilm {
      ScoredUrisDistinct(skill, archive.db, query, base, fuzzy);
    }
    DistinctAfterPlaylist(head, e);
  }

  lemma DistinctAfterPlaylist(head: seq<MatchResult>, e: seq<MatchResult>)
    requires |head| <= 1 && (head != [] ==> head[0].Playlist?)
    requires forall i :: 0 <= i < |e| ==> e[i].Media?
    requires forall i, j :: 0 <= i < j < |e| ==> e[i].uri != e[j].uri
    ensures var r := head + e;
      forall i, j :: 0 <= i < j < |r| && r[i].Media? && r[j].Media? ==> r[i].uri != r[j].uri
  {
    var r := head + e;
    forall i, j | 0 <= i < j < |r| && r[i].Media? && r[j].Media? ensures r[i].uri != r[j].uri {
      assert |head| <= i;
      assert r[i] == e[i - |head|] && r[j] == e[j - |head|];
    }
  }
}
