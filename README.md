# CGBros skill: query scoring and result assembly

A Dafny model of the decision logic of `CGBrosSkill`, the OpenVoiceOS
common-play skill that offers short films from The CGBros YouTube channel.
A request is a spoken phrase and a declared media type. The skill answers
with playback candidates:

- a "movie playlist" result, when the phrase names CGBros;
- one result per video in its local archive, when a short film was asked
  for;
- a fixed-confidence "featured" list, which also backs the playlist.

The model has two modules:

- `PyStr` (`pystr.dfy`) models the Python string built-ins that the title
  normalisation relies on, with lemmas about them:
  - `str.lower` and `str.strip`;
  - `str.replace(p, "")`, as a leftmost, non-overlapping scan;
  - `str.split(" ")` and `" ".join`;
  - the `" ".join([w for w in s.split(" ") if w])` idiom, named `Collapse`.
- `CGBros` (`cgbros.dfy`) holds the skill's records, its two kinds of
  results and the six operations.
  - `match_skill` and `normalize_title` are methods. Each builds its result
    step by step, as the source does, and is proved equal to a
    specification function (`SkillScore`, `Normalized`).
  - `search_db` is a method. Its `for` loop over the archive is a `while`
    loop, proved equal to the function `SearchResults`. The properties the
    skill promises are lemmas about that function.
  - `calc_score`, `get_playlist` and `featured_media` are expressions in
    the source and functions here.

The services the skill calls are inputs of the model:

- the archive's database, a sequence of `(url, record)` pairs;
- the archive's `sorted_entries()`, a sequence of records;
- `voc_match(phrase, "cgbros")`, a boolean;
- `remove_voc(title, "movie")`, a string function, which some lemmas require to
  only delete text (`IntroducesNoChar`);
- `fuzzy_match`, a function returning an exact `real`.

The scoring in this file is simple:

- a short-film request adds 10 and the CGBros vocabulary adds 50;
- there is no keyword scoring on titles, studios or actors;
- for a short-film request every archive entry is yielded, scored by the
  fuzzy ratio alone, with no substring filter.

## Model

| member | source | states |
|---|---|---|
| CGBros.SkillScore | __init__.py:37-43 | the score is one of 0, 10, 50 and 60. It is at least 50 exactly when the vocabulary matches. It is 10 or 60 exactly when a short film was requested. |
| CGBros.MatchSkill | __init__.py:37-43 | adding 10 for a short film and then 50 for the vocabulary match gives `SkillScore` |
| CGBros.NormalizeTitle | __init__.py:45-52 | the step-by-step chain gives `Normalized`: lower and strip, `remove_voc`, delete the vertical bar, `"` and `:`, then `???` twice, strip, collapse the spaces |
| CGBros.CleanUpShape | __init__.py:48-50 | after the deletions and the strip, no vertical bar, `"`, `:` or `???` is left and there is no whitespace at either end |
| CGBros.CollapseCleaned | __init__.py:51-52 | collapsing the spaces keeps a cleaned text clean. It leaves no two adjacent spaces and, for a non-empty result, no empty word. |
| CGBros.CleanedShape | __init__.py:48-52 | whatever `remove_voc` returns, the rest of the normalisation produces text with no vertical bar, `"`, `:`, `???` or double space, no whitespace at the ends, and no empty word |
| CGBros.NormalizedShape | __init__.py:45-52 | the same shape holds for every normalised title, for any `remove_voc` |
| CGBros.NormalizedLowercase | __init__.py:46-52 | when `remove_voc` only deletes text, a normalised title has no ASCII upper-case letter |
| CGBros.NormalizedWords | __init__.py:51-52 | the words of a non-empty normalised title are, in order and with repetitions, the non-empty words of the text after the clean-up |
| CGBros.CleanUpKeeps | __init__.py:48-50 | on a text without the deleted characters and literal, the clean-up is only a strip: it deletes nothing else |
| CGBros.NormalizeFixpoint | __init__.py:45-52 | every clean text is its own normalisation. Clean means no ASCII capital, no vertical bar, `"`, `:` or `???`, no whitespace at the ends, no empty word, and nothing for `remove_voc` to delete. |
| CGBros.NormalizeIdempotent | __init__.py:46-52 | normalising a normalised title returns it unchanged, when `remove_voc` only deletes text and finds nothing to delete in it |
| CGBros.CalcScore | __init__.py:54-57 | the score is never above 100. It is the base score plus 100 times the ratio of the lower-cased phrase and title, or 100 when that sum is larger. It is never below a base score of at most 100 when the ratio is non-negative. |
| CGBros.FeaturedMedia | __init__.py:95-107 | one result per `sorted_entries()` record, in that order. Each has confidence 70, uri `youtube//` followed by the url, the record's title and thumbnail, and the short-film type. |
| CGBros.UriInjective | __init__.py:102 | the `youtube//` prefix keeps distinct urls distinct |
| CGBros.FeaturedUrisDistinct | __init__.py:96-107 | records with distinct urls give featured results with distinct uris |
| CGBros.PrefixSlice | __init__.py:60 | Python's `s[:n]`: the first `n` elements, or all but the last `-n` when `n` is negative, always a prefix of `s` |
| CGBros.GetPlaylist | __init__.py:59-71 | a playlist result with confidence `score`, the short-film type, and the CGBros title and author. For `n >= 0` its entries are exactly the first `min(n, len(featured))` featured results, in order. |
| CGBros.SearchEntries | __init__.py:81-93 | the loop yields `ScoredEntries`: one result per database pair, in database order, scored by `calc_score` against the query |
| CGBros.SearchDb | __init__.py:73-93 | the whole generator yields `SearchResults`: the playlist when the vocabulary matches, then, for a short-film request only, the scored entries for the normalised phrase |
| CGBros.SearchLength | __init__.py:75-93 | one result for the vocabulary match plus one per database pair for a short-film request. With neither, nothing is yielded. |
| CGBros.SearchPlaylistFirst | __init__.py:75-77 | a result is a playlist exactly when the vocabulary matched and it is the first result. Its confidence is `match_skill`'s score: 60 for a short film, 50 otherwise. |
| CGBros.SearchEntryShape | __init__.py:78-93 | for a short-film request, database pair `i` gives the result right after the optional playlist. It has the record's title and thumbnail, the CGBros author, the short-film type and uri `youtube//` followed by the key. Its confidence is `calc_score` of the normalised phrase, never above 100. |
| CGBros.ScoredUrisDistinct | __init__.py:81-93 | distinct database keys give the scored entries distinct uris |
| CGBros.SearchUrisDistinct | __init__.py:73-93 | distinct database keys give the yielded videos distinct uris |
| PyStr.LowerChar | __init__.py:46 | an ASCII capital becomes the small letter at the same place in the alphabet. Every other character is kept. |
| PyStr.Lower | __init__.py:46 | `lower()` keeps the length and lowers each character in place with `LowerChar`. No ASCII upper-case letter is left, and every other character is kept. |
| PyStr.LStrip | __init__.py:46 | the result does not start with whitespace, and only whitespace was dropped from the front |
| PyStr.RStrip | __init__.py:46 | the result does not end with whitespace, and only whitespace was dropped from the back |
| PyStr.Strip | __init__.py:46 | the result neither starts nor ends with whitespace |
| PyStr.StripNoop | __init__.py:50 | a text without whitespace at its ends is left unchanged by `strip()` |
| PyStr.Remove | __init__.py:48-49 | `replace(p, "")` never makes the text longer |
| PyStr.RemoveFirst | __init__.py:49 | `replace(p, "")` keeps everything before the first occurrence of `p`, deletes that occurrence and carries on after it. With `RemoveNoop` this fixes the result for every text, including the three-character `???`. |
| PyStr.RemoveSingle | __init__.py:48 | `replace(c, "")` on a one-character text keeps the character unless it is `c` |
| PyStr.RemoveAppend | __init__.py:48 | `replace(c, "")` works piece by piece. `(a + b).replace(c, "")` is `a.replace(c, "")` followed by `b.replace(c, "")`, so every other character survives, in order. |
| PyStr.RemoveChar | __init__.py:48-49 | after `replace(c, "")` the character `c` is gone |
| PyStr.RemoveChars | __init__.py:48-49 | `replace(p, "")` introduces no character |
| PyStr.RemoveNoop | __init__.py:49 | `replace(p, "")` leaves a text without `p` unchanged, so the second `replace('???', "")` changes nothing |
| PyStr.RemoveTripleFree | __init__.py:49 | after `replace(ccc, "")` the triple `ccc` occurs nowhere, even where a deletion brings characters together |
| PyStr.FirstSpace | __init__.py:52 | the position of the first space, or the length when there is none |
| PyStr.Split | __init__.py:52 | `split(" ")` gives at least one word and no word holds a space |
| PyStr.JoinSplit | __init__.py:51-52 | `" ".join(s.split(" ")) == s` |
| PyStr.SplitJoin | __init__.py:51-52 | `" ".join(ws).split(" ") == ws` for a non-empty list of words without spaces |
| PyStr.NonEmpty | __init__.py:52 | the filter keeps exactly the non-empty words |
| PyStr.NonEmptySingle | __init__.py:52 | the filter keeps a single word exactly when it is non-empty |
| PyStr.NonEmptyAppend | __init__.py:52 | the filter works piece by piece, so it keeps the order and the repetitions of the words it keeps |
| PyStr.CollapseWords | __init__.py:51-52 | characterises `Collapse`, the idiom of lines 51-52: for a text with a non-empty word, splitting the collapsed text gives back exactly the non-empty words of the original |
| PyStr.CollapseNoDoubleSpace | __init__.py:51-52 | the collapsed text never holds two adjacent spaces |
| PyStr.CollapseEnds | __init__.py:51-52 | collapsing keeps the first and last character of a text that neither starts nor ends with a space |
| PyStr.CollapseIdempotent | __init__.py:51-52 | collapsing twice gives the same text as collapsing once |
| PyStr.CollapseChars | __init__.py:51-52 | collapsing introduces no character other than the space |

## Left out

- `__init__` and `initialize` (`__init__.py:12-34`) build the archive monitor, fetch the bootstrap index over HTTP, register the monitored playlists and start a daemon thread. This is I/O and concurrency.
- The archive's storage, merge and sync are left out, as is the order of `sorted_entries()`. They live in the `youtube_archivist` library, which is not part of this model. The database and the sorted entries are inputs, taken as given.
- `voc_match` depends on vocabulary files that are not part of this model, so it is a boolean input. The source calls it twice on the same phrase and vocabulary (lines 41 and 76). The model uses one value for both calls.
- `remove_voc` is a string function input for the same reason. Lowercase output and idempotence are proved only for a `remove_voc` that introduces no character.
- `fuzzy_match` is a library similarity ratio computed in floating point. It is an input returning an exact `real`. Its internals are not modelled.
- CGBros.CalcScore: the score is a `real`, not a Python float, so floating-point rounding is not modelled.
- PyStr.LowerChar: only ASCII `A`-`Z` are mapped; every other character, including a non-ASCII capital, is kept unchanged. Python's full Unicode case mapping is not modelled.
- PyStr.Lower: built on `LowerChar`, so it lowers only ASCII letters. Python's case mappings that change the length of the text are not modelled.
- PyStr.Strip: strips the characters for which Python's `str.isspace` holds, listed in `IsSpace`.
- Line 49 of the source deletes the three-character literal `???` twice. It is modelled as written. `RemoveNoop` shows that the second deletion changes nothing.
- `search_db` is a lazy generator in the source. Here it is the finite sequence of everything it would yield, in order.
- `get_playlist`'s default score of 50 is not modelled. `search_db` always passes its own base score. The default of 250 entries is `PlaylistSize`.
- Framework wiring is left out: the `@ocp_search` and `@ocp_featured_media` decorators, the internals of the `MediaType` and `PlaybackType` enums, the icon path and `create_skill`. The skill's icon and id are carried as a `Skill` value, and `default_bg` equals the icon (line 16).
- Title, studio and actor keyword extraction and multi-category scoring are not modelled. They do not appear in this source.
- CGBros.NormalizedShape: "no empty word" is stated only for a non-empty result. Python's `"".split(" ")` is `[""]`, so an empty title always splits into one empty word.
