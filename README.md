# Sentiment analysis of transliterated social-media comments — Dafny model

The repository is a Streamlit app. It fetches YouTube comments or replies to a
tweet, cleans each comment, translates it to English, labels the translation
positive, negative or neutral, and reports the most common label with its
share. Three near-identical scripts implement it:

- `Sentiment_Analysis.py` keeps ASCII and Telugu characters. It translates
  with googletrans using the translator's own source detection. It stops early
  on an empty comment list and shows fractional progress.
- `Sentimentanalysis.py` keeps ASCII, Devanagari and Telugu characters. It
  runs googletrans language detection first. It then names the source
  explicitly for pure Hindi or pure Telugu text. Progress is in whole percent.
- `Frontend.py` has no script filter. It translates through a RapidAPI HTTP
  endpoint and records three columns instead of four.

The model covers the comment-processing core in all three variants.

**URL parsing** (`UrlIds`):
- `extract_video_id` and `extract_tweet_id`.

**Comment cleaning** (`Normalizer`, over `Text`):
- `preprocess_comment`: the optional early return, `html.unescape`, and the
  three `re.sub` removals (links, tags, handles);
- the script filter, and the whitespace collapse `' '.join(s.split())`.

**Translation** (`Translation`):
- the three forms of `transliterate_and_translate`, including every path
  that gives `None`.

**Labelling** (`Sentiment`):
- `analyze_sentiment` with its sign rule.

**Summary** (`Aggregate`):
- the `sentiment_counts` dictionary;
- `max(..., key=...)` with its tie-breaking;
- the final percentage, including the division by zero that happens when no
  row survives.

**The run** (`Pipeline`):
- `run_analysis`: the per-comment loop as a method proved against
  specification functions, and the progress values it passes to the bar.

Outside services are parameters (`Pipeline.Services`), not code:
- `html.unescape`;
- the TextBlob polarity;
- whether googletrans detection returns;
- the googletrans translator, where `None` means it raised;
- the RapidAPI endpoint's reply.

## Behaviour worth noting

- The video id is `url.split("v=")[1].split("&")[0]`, so it ends at a
  second `v=` as well as at `&`.
- When no comment survives, the scripts divide by zero
  (`Summary.ZeroDivision`). `Sentimentanalysis.py` and `Frontend.py` do this
  even for an empty comment list.
- In `Frontend.py`, a 200 reply without a `translation` member yields the
  text `No translation found`. That text is then labelled and counted like
  any other translation.
- `Sentimentanalysis.py` names the source language for pure Hindi or pure
  Telugu text, and asks for auto-detection only otherwise.

## Model

| member | source | states |
|---|---|---|
| UrlIds.ExtractVideoId | Sentiment_Analysis.py:23-26 | `None` exactly when the URL lacks `youtube.com/watch?v=`; otherwise an id containing neither `&` nor `v=` (same code at Sentimentanalysis.py:21-24, Frontend.py:15-18) |
| UrlIds.VideoIdLocated | Sentiment_Analysis.py:25 | the id is the text right after the first `v=` in the URL, and it ends at the URL's end, at a `&` or at another `v=` |
| UrlIds.MarkerHasKey | Sentiment_Analysis.py:24-25 | a URL passing the marker test always contains `v=`, so `split("v=")[1]` exists |
| UrlIds.ExtractTweetId | Sentiment_Analysis.py:29-30 | the id contains no `/`, and it is empty exactly when the URL is nothing but slashes (same code at Sentimentanalysis.py:27-28, Frontend.py:21-22) |
| UrlIds.TweetIdLocated | Sentiment_Analysis.py:30 | the id is a suffix of the slash-stripped URL, preceded by a `/` or making up all of it |
| Text.FindFrom | Sentiment_Analysis.py:25 | the first occurrence at or after a position, or none: the search that `str.split` performs |
| Text.Contains | Sentiment_Analysis.py:24 | `t in s`: the substring occurs at some position, the test behind `"youtube.com/watch?v=" in url` (Sentimentanalysis.py:22, Frontend.py:16) |
| Text.Split | Sentiment_Analysis.py:25 | `str.split(sep)` for a non-empty separator: at least one piece; with `SplitCount`, `SplitPiecesFree`, `SplitJoin`, `SplitFromHead` and `SplitFromLast` the pieces are fixed |
| Text.Join | Sentiment_Analysis.py:52 | `sep.join(pieces)`: the pieces with `sep` between each two; `SplitJoin` and `WordsOfJoin` make it the inverse of the two splits |
| Text.SplitCount | Sentiment_Analysis.py:25 | a split has more than one piece exactly when the separator occurs |
| Text.SplitPiecesFree | Sentiment_Analysis.py:25 | no piece of a split contains the separator |
| Text.SplitJoin | Sentiment_Analysis.py:25 | joining the pieces with the separator gives the original string back |
| Text.SplitFromHead | Sentiment_Analysis.py:25 | the first piece (`[0]`) runs from the start to the first separator, or to the end when there is none |
| Text.LastSep | Sentiment_Analysis.py:30 | the separator occurrence that the last cut of `split` is made at: it lies in the searched range and really is an occurrence |
| Text.LastCut | Sentiment_Analysis.py:30 | where the last piece begins, within the searched range |
| Text.LastCutPlaced | Sentiment_Analysis.py:30 | the last piece begins right after an occurrence of the separator, or at the start when there is none |
| Text.SplitFromLast | Sentiment_Analysis.py:30 | the last piece (`[-1]`) is the suffix from that cut to the end; with `SplitPiecesFree` no separator follows it |
| Text.StripChar | Sentiment_Analysis.py:30 | the result does not start or end with the stripped character, and it is never longer than the input |
| Text.StripCharParts | Sentiment_Analysis.py:30 | the result is a contiguous part of the input, and everything cut off on either side is the stripped character |
| Text.StripCharEmpty | Sentiment_Analysis.py:30 | stripping leaves nothing exactly when the input consists of the stripped character only |
| Text.IsSpace | Sentiment_Analysis.py:104 | the characters that `str.strip()`, `str.split()` and `\s` treat as whitespace: the ASCII controls 9 to 13, 28 to 31, the space, and the Unicode space separators and line breaks |
| Text.Blank | Sentiment_Analysis.py:104 | `not text.strip()`: the text is empty or made of whitespace only (Sentimentanalysis.py:80, Frontend.py:73) |
| Text.Words | Sentiment_Analysis.py:52 | `str.split()` gives non-empty whitespace-free words, and no words exactly when the text is blank; `WordsUnique` fixes them as the input's words in order |
| Text.Collapse | Sentiment_Analysis.py:52 | `' '.join(s.split())` has no leading, trailing or doubled space, and it is empty exactly when the text is blank; `CollapseIsSqueeze` fixes its contents |
| Text.Squeeze | Sentiment_Analysis.py:52 | a one-pass reference for the collapse: keep each non-whitespace character in order and put one space between two kept characters exactly when whitespace separated them |
| Text.SqueezeWord | Sentiment_Analysis.py:52 | a word standing before whitespace or the end survives the squeeze whole, followed by one space when anything is kept after it |
| Text.CollapseIsSqueeze | Sentiment_Analysis.py:52 | `' '.join(s.split())` equals the one-pass squeeze for every input, so every non-whitespace character is kept in order and each inner whitespace run becomes one space |
| Text.WordsUnique | Sentiment_Analysis.py:52 | a list of words joins with single spaces to the squeeze of `s` exactly when it is `s.split()` |
| Text.CollapseIdempotent | Sentiment_Analysis.py:52 | collapsing twice is the same as collapsing once |
| Text.CollapseKeepsWords | Sentiment_Analysis.py:52 | collapsing keeps the sequence of words unchanged |
| Text.CollapseSingle | Sentiment_Analysis.py:52 | a single non-space character is left as it is by the collapse |
| Text.WordsOfJoin | Sentiment_Analysis.py:52 | splitting words joined by single spaces gives the same words back |
| Text.CollapseWithin | Sentiment_Analysis.py:49-52 | the collapse of text whose characters all pass a filter that admits the space contains only characters passing that filter; whitespace the filter does not admit, such as a tab, may be dropped |
| Normalizer.LinkAt | Sentiment_Analysis.py:40 | the link pattern (`http[s]?://\S+` or `www\.\S+`) matches at a position: one of the three prefixes and a non-whitespace character after it |
| Normalizer.TagAt | Sentiment_Analysis.py:43 | `<.*?>` matches at a position: a `<` with a `>` after it on the same line |
| Normalizer.HandleAt | Sentiment_Analysis.py:46 | `@\w+` matches at a position: an `@` followed by a word character |
| Normalizer.IsWordChar | Sentiment_Analysis.py:46 | the characters `\w` matches in `@\w+`: ASCII letters, digits and `_` |
| Normalizer.MatchLen | Sentiment_Analysis.py:40-46 | the length of the match at a position, zero exactly when nothing matches: a link is non-whitespace up to whitespace or the end, a tag ends at the first `>` after its `<` with no newline inside, a handle is an `@` and the word characters up to the first non-word character or the end |
| Normalizer.Sub | Sentiment_Analysis.py:40-46 | `re.sub(pattern, '', comment)` never lengthens the text; with `SubKeepHead` and `SubDropMatch` it is fixed: a character where nothing matches is kept and scanning moves on one, a match is dropped and scanning resumes after it |
| Normalizer.TagClose | Sentiment_Analysis.py:43 | the first `>` before any newline, or none when every `>` comes after a newline (`.` does not match a newline) |
| Normalizer.SubClean | Sentiment_Analysis.py:40-46 | after each `re.sub(..., '', ...)` pass no match of its pattern remains at any position |
| Normalizer.SubIdempotent | Sentiment_Analysis.py:40-46 | a second identical removal pass changes nothing |
| Normalizer.SubIdentity | Sentiment_Analysis.py:40-46 | a removal pass leaves text with no match unchanged |
| Normalizer.LinkPassClean | Sentiment_Analysis.py:40 | after removing links, no `http://`, `https://` or `www.` followed by a non-space character remains |
| Normalizer.TagPassClean | Sentiment_Analysis.py:43 | after removing tags, no `<` is followed by a `>` on the same line |
| Normalizer.HandlePassClean | Sentiment_Analysis.py:46 | after removing handles, no `@` is followed by a word character |
| Normalizer.SpaceKept | Sentiment_Analysis.py:40-46 | no pattern matches at a whitespace character, so each pass keeps it |
| Normalizer.ExampleHasNoLink | Sentiment_Analysis.py:40 | `www<b>.x` holds no match of the link pattern, because the tag interrupts `www.` |
| Normalizer.LinkReassembled | Sentiment_Analysis.py:40-43 | links are removed before tags, so `www<b>.x` survives the link pass and becomes the link `www.x` once its tag is removed |
| Normalizer.Keep | Sentiment_Analysis.py:49 | the script filter keeps only allowed characters and never lengthens the text (Sentimentanalysis.py:36 for the Devanagari-and-Telugu filter) |
| Normalizer.Allowed | Sentiment_Analysis.py:49 | the characters the filter keeps: ASCII and Telugu (U+0C00 to U+0C7F) in the first script, ASCII, Devanagari (U+0900 to U+097F) and Telugu at Sentimentanalysis.py:36, every character in the script without the filter |
| Normalizer.KeepsAllowed | Sentiment_Analysis.py:49 | an allowed character is kept in place between the filtered text before and after it |
| Normalizer.DropsDisallowed | Sentiment_Analysis.py:49 | a disallowed character, such as an emoji, is dropped and the rest is filtered independently |
| Normalizer.KeepAppend | Sentiment_Analysis.py:49 | filtering works character by character: the filter of a concatenation is the concatenation of the filters |
| Normalizer.KeepIdentity | Sentiment_Analysis.py:49 | text made only of allowed characters passes unchanged |
| Normalizer.Preprocess | Sentiment_Analysis.py:33-52 | the cleaned comment is collapsed (no leading, trailing or doubled space), has only characters the variant's filter allows, and is `""` for an empty comment where the early return exists (Sentimentanalysis.py:31-37, Frontend.py:25-30) |
| Normalizer.PreprocessCollapseStable | Sentiment_Analysis.py:52 | re-applying the collapse step to a cleaned comment changes nothing |
| Normalizer.EmojiOnlyWithoutFilter | Frontend.py:25-30 | an emoji-only comment survives cleaning in the RapidAPI script and is emptied by both filtering scripts (Sentiment_Analysis.py:49, Sentimentanalysis.py:36) |
| Translation.Code | Sentimentanalysis.py:89-94 | the language codes sent are two letters or `auto` |
| Translation.CodeInjective | Sentimentanalysis.py:89-94 | different languages are sent as different codes |
| Translation.GoogleTranslate | Sentiment_Analysis.py:103-113 | no request for blank text, which gives `None`; otherwise one request with source `auto` and target `en`, whose result, or `None` when it raises, is returned; language detection is never called |
| Translation.PureScript | Sentimentanalysis.py:89-91 | `re.match(r'^[lo-hi\s]+$', text)`: the text is non-empty and every character is whitespace or in the block |
| Translation.PureHindi | Sentimentanalysis.py:89 | `re.match(r'^[\u0900-\u097F\s]+$', text)`: non-empty Devanagari-and-whitespace text |
| Translation.PureTelugu | Sentimentanalysis.py:91 | `re.match(r'^[\u0C00-\u0C7F\s]+$', text)`: non-empty Telugu-and-whitespace text |
| Translation.SourceLanguage | Sentimentanalysis.py:89-94 | source `hi` exactly for pure Devanagari-and-whitespace text, otherwise `te` exactly for pure Telugu-and-whitespace text, otherwise `auto` |
| Translation.SourceCodes | Sentimentanalysis.py:89-94 | the source code sent is `hi` exactly for pure Hindi text, `te` exactly for pure Telugu text that is not pure Hindi, and `auto` otherwise |
| Translation.PureTeluguChoosesTelugu | Sentimentanalysis.py:89-92 | non-blank pure Telugu text always gets source `te`, because it cannot also be pure Hindi |
| Translation.LatinLetterChoosesAuto | Sentimentanalysis.py:89-94 | text with a Latin letter gets source `auto` |
| Translation.GoogleTranslateWithSource | Sentimentanalysis.py:79-99 | blank text returns before `translator.detect` is called, so it gets neither detection nor a request and gives `None`; detection is called exactly for non-blank text; when it raises there is no request and `None`; otherwise one request with the chosen source and target `en`, whose result, or `None` when it raises, is returned |
| Translation.RapidApiTranslate | Frontend.py:72-92 | no request for blank text; a result exactly for a 200 reply with a JSON body whose `translation` is not null; that result is the member, or `No translation found` when it is absent; every other status, a non-JSON body and an exception give `None`; language detection is never called |
| Translation.MissingFieldYieldsPlaceholder | Frontend.py:87-89 | a 200 reply without the member gives the non-empty placeholder text |
| Translation.OtherStatusYieldsNone | Frontend.py:87-90 | any status other than 200 gives `None` whatever the body holds |
| Sentiment.Classify | Sentiment_Analysis.py:99 | positive exactly above zero, negative exactly below, neutral exactly at zero, with no tolerance band |
| Sentiment.ClassifyNegated | Sentiment_Analysis.py:99 | negating the polarity swaps positive and negative and keeps neutral |
| Sentiment.ClassifyMonotone | Sentiment_Analysis.py:99 | a larger polarity never gets a more negative label |
| Sentiment.AnalyzeSentiment | Sentiment_Analysis.py:96-100 | returns the analyser's polarity unchanged with the label the sign rule gives it (Sentimentanalysis.py:72-76, Frontend.py:65-69) |
| Aggregate.MostCommon | Sentiment_Analysis.py:211 | the chosen label has a count at least every other label's, and every label before it in dictionary order has a strictly smaller count |
| Aggregate.Rank | Sentiment_Analysis.py:169 | the insertion order of the `sentiment_counts` keys, `positive, negative, neutral`, which `max` visits and which breaks its ties |
| Aggregate.TiesGoToEarlierLabel | Sentiment_Analysis.py:211 | on a tie for the maximum the label earlier in `positive, negative, neutral` order wins |
| Aggregate.Total | Sentiment_Analysis.py:212 | `sum(sentiment_counts.values())`: the three counts added; `TallyTotal` makes it the number of rows |
| Aggregate.Zero | Sentiment_Analysis.py:169 | the dictionary as the loop starts it: all three labels present, each at 0; `TallyEmpty` makes it the tally of no rows (Sentimentanalysis.py:127, Frontend.py:136) |
| Aggregate.TopShare | Sentiment_Analysis.py:211 | the most common label's count is at least a third of the total and at most the total |
| Aggregate.Summarize | Sentiment_Analysis.py:211-212 | division by zero exactly when the counts sum to zero; otherwise the dominant label is `MostCommon`, percentage times total equals its count times 100, and the percentage lies between 100/3 and 100 (Sentimentanalysis.py:167-168, Frontend.py:171-172) |
| Pipeline.PreprocessFor | Sentiment_Analysis.py:177 | each variant's cleaning gives collapsed text in its own script set, and `""` for an empty comment in the first script |
| Pipeline.TranslateFor | Sentiment_Analysis.py:178 | each variant's translation never sends blank text, always asks for English, and sends the text as given; blank text is never passed to detection, and detection is called exactly in the detection variant for non-blank text; outside the detection variant, non-blank text is always sent |
| Pipeline.MakeRow | Frontend.py:146-150 | the row holds the original, translated text and label, with the preprocessed column exactly outside the RapidAPI script (Sentiment_Analysis.py:183-188) |
| Pipeline.RowFor | Sentiment_Analysis.py:177-188 | a comment yields a row exactly when its translation is a non-empty string; the row holds the original comment, that translation and the label of that translation's polarity, and the preprocessed text where that column exists |
| Pipeline.GatherAppend | Sentiment_Analysis.py:175-188 | rows are collected in comment order: the rows of two batches are the first batch's rows followed by the second's |
| Pipeline.GatherBound | Sentiment_Analysis.py:175-188 | each comment contributes at most one entry |
| Pipeline.GatherEmpty | Sentiment_Analysis.py:175-188 | nothing is collected exactly when no comment yields an entry |
| Pipeline.GatherFrom | Sentiment_Analysis.py:175-188 | each collected entry is the entry of some comment |
| Pipeline.GatherFull | Sentiment_Analysis.py:175-188 | every comment contributes an entry exactly when the collected list is as long as the comment list |
| Pipeline.RowsOf | Sentiment_Analysis.py:175-188 | the `translations` list: the rows of the comments, in order; `RowsOfAppend`, `RowsBound`, `RowsSound` and `NoRowsIffAllSkipped` state what it holds |
| Pipeline.RowsOfAppend | Sentiment_Analysis.py:175-188 | the rows of a run keep the comment order across batches |
| Pipeline.RowsBound | Sentiment_Analysis.py:175-188 | a run has at most as many rows as comments, and exactly as many exactly when every comment yields a row |
| Pipeline.RowsSound | Sentiment_Analysis.py:180-188 | every row comes from some comment, holds a non-empty translation, is labelled from that translation, and has three columns exactly in the RapidAPI script |
| Pipeline.NoRowsIffAllSkipped | Sentiment_Analysis.py:180 | no row survives exactly when every comment is skipped |
| Pipeline.BlankIsSkipped | Sentiment_Analysis.py:104-105 | a comment that cleans to blank text reaches neither language detection nor a translation request, and yields no row, in every variant |
| Pipeline.EmptyCommentSkipped | Sentiment_Analysis.py:34-35 | in the first script an empty comment cleans to `""` and yields no row |
| Pipeline.PlaceholderIsCounted | Frontend.py:89 | in the RapidAPI script a 200 reply without `translation` is recorded, and counted, as a row with the placeholder text |
| Pipeline.Tally | Sentiment_Analysis.py:169-182 | the counts dictionary has all three labels, and each label's count is the number of rows with that label |
| Pipeline.CountOf | Sentiment_Analysis.py:182 | the count that `sentiment_counts[label] += 1` builds: one per row carrying the label, in row order |
| Pipeline.TallyStep | Sentiment_Analysis.py:182 | recording one more row raises its label's count by one and leaves the others unchanged |
| Pipeline.TallyBump | Sentiment_Analysis.py:182 | `sentiment_counts[label] += 1` on the tally of the earlier rows is the tally with the new row added |
| Pipeline.TallyTotal | Sentiment_Analysis.py:212 | the counts sum to the number of rows, not the number of comments |
| Pipeline.ZeroDivisionIffNoRows | Sentiment_Analysis.py:212 | the percentage divides by zero exactly when no row survived |
| Pipeline.AllSkippedDividesByZero | Sentiment_Analysis.py:212 | a run whose every comment is skipped ends in the division by zero |
| Pipeline.EmptyCommentsDivideByZero | Sentiment_Analysis.py:164-167 | a non-empty list of empty comments passes the empty-list guard of the first script and still divides by zero |
| Pipeline.EmptyListDividesByZero | Sentimentanalysis.py:125-168 | without the guard, an empty list yields no rows, only the initial progress value, and the division by zero (Frontend.py:134-172) |
| Pipeline.ProgressTrace | Sentiment_Analysis.py:172-189 | the bar shows one value more than the number of comments processed: the initial 0, then one per comment |
| Pipeline.TraceShape | Sentiment_Analysis.py:172-189 | the trace starts at 0 and its entry after comment `i` is that comment's progress value |
| Pipeline.ProgressAt | Sentiment_Analysis.py:189 | the value passed to the bar after comment `i` of `n`: `(i + 1) / n` in the first script, `min(int((i + 1) / n * 100), 100)` in the others (Sentimentanalysis.py:145, Frontend.py:151); `FractionBound`, `PercentRises` and `LevelRises` bound it |
| Pipeline.FractionRises | Sentiment_Analysis.py:189 | the fractional progress lies in (0, 1] and rises strictly with each comment |
| Pipeline.FractionFull | Sentiment_Analysis.py:189 | the fractional progress after the last comment is exactly 1 |
| Pipeline.PercentRises | Sentimentanalysis.py:145 | whole-percent progress stays within 0 to 100, never falls, and is 100 after the last comment (Frontend.py:151) |
| Pipeline.LevelRises | Sentiment_Analysis.py:189 | read as a share of the bar, a later comment's progress is never below an earlier one's and never above 1 (Sentimentanalysis.py:145) |
| Pipeline.TraceNeverFalls | Sentiment_Analysis.py:172-189 | in every variant the bar never moves back during a run, stays within [0, 1], and is full after the last comment |
| Pipeline.Accumulate | Sentiment_Analysis.py:175-189 | the loop's rows are the rows of the comments in order, its counts are their tally, and its progress is the full trace (Sentimentanalysis.py:132-145, Frontend.py:141-151) |
| Pipeline.RunAnalysis | Sentiment_Analysis.py:163-212 | stops with the no-comments warning exactly in the first script on an empty list; otherwise returns the rows, their tally, the full progress trace and the summary of the counts (Sentimentanalysis.py:125-168, Frontend.py:134-172) |

## Left out

- Streamlit rendering is not modelled: the page layout, buttons, session
  state, warnings, the data frame, the CSV download and the pie chart. The
  model keeps only what `run_analysis` computes and passes on.
- `fetch_youtube_comments` and `fetch_tweets` are network I/O. The comment
  list is a parameter of `Pipeline.RunAnalysis`.
- API keys and `.env` loading are configuration, not behaviour.
- `html.unescape`, the TextBlob polarity, googletrans and the RapidAPI
  endpoint are outside code. They are the function-valued fields of
  `Pipeline.Services`. Their internal behaviour, network failures and
  timing are not modelled.
- `Translation.GoogleTranslateWithSource`: the language that detection
  returns is unused by the code, so only whether the call raises is modelled.
- `Normalizer.IsWordChar`: `\w` is taken as ASCII letters, digits and `_`.
  Python's Unicode `\w` also matches letters of other scripts, such as Telugu
  and Devanagari. So for a handle followed by such letters, the model removes
  only its ASCII part, and it keeps a handle made only of such letters.
- `Pipeline.ProgressAt`: for whole-percent progress the model uses the exact
  floor of `(i + 1) * 100 / n`. Python computes it in floating point, where
  some values can come out one point lower.
- `Aggregate.Summarize`: the percentage is an exact rational. It does not
  model floating-point rounding or the two-decimal display.
- `Translation.RapidApiTranslate`: a `translation` member in the reply that
  is a number, list or object is not modelled. Only absent, `null` or a
  string are. The model's `Field` type has only those three.
- A comment that is not a string, such as `None` from a malformed API reply,
  is not modelled. Comments are strings throughout.
