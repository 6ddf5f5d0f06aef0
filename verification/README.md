# discord-text-sanitizer in Dafny

A model of the text pipeline of `discordtextsanitizer/_sanitizers.py`. The
pipeline prepares user text for a chat platform that silently drops some
code points and turns `@` into mass-mention notifications. It has two public
operations:

- `preprocess_text` has four steps in a fixed order. It optionally strips HTML
  comments and tags. It then runs mojibake repair, with HTML-entity decoding
  exactly when tags are stripped. It optionally reorders the text for
  bidirectional display. Finally, it always removes the code points the
  platform is known to drop.
- `sanitize_mass_mentions` optionally runs `preprocess_text`. It then puts a
  ZERO WIDTH SPACE (U+200B) after every `@`.

Text is a `seq<CodePoint>`, where a code point is an integer in
[0, 0x10FFFF]. Lone surrogates are allowed, as in a Python `str`.

The model has one module per concept:

- `CodePoints` (code_points.dfy) defines the text type and the named code points.
- `DropChars` (drop_chars.dfy) models `discord_drop_re` and its substitution.
- `HtmlTags` (html_tags.dfy) models `html_tag_re` and its substitution. The
  substitution is a left-to-right scanner that tries the lazy comment
  alternative before the tag alternative.
- `Mentions` (mentions.dfy) models `mass_mention_sanitizer` and its
  substitution.
- `Sanitizers` (sanitizers.dfy) models `preprocess_text` and
  `sanitize_mass_mentions`.

The two library calls are `ftfy.fix_text` and `bidi.algorithm.get_display`.
Each is a function-valued field of a `Library` value that the caller passes
in. The general properties are proved for every such function. A few worked
examples need a library call to leave a particular text unchanged. Those
examples state that as a hypothesis.

The drop pattern is a single character class, so each `|` inside the brackets
is a class member and U+007C VERTICAL LINE is dropped.

The mention substitution is not idempotent. A second pass turns `@` U+200B
into `@` U+200B U+200B. Only the number of `@` stays the same
(`Mentions.EscapeTwiceAddsBreaks`).

## Model

| member | source | states |
|---|---|---|
| DropChars.IsDropped | discordtextsanitizer/_sanitizers.py:9-11 | Membership in the range table matches the class exactly. The class is U+202E, `\|`, U+D800, U+DB7F, U+DB80, U+DBFF, U+DC00 and U+DFFF, plus the inclusive range U+E0195..U+E01EF |
| DropChars.DropTableMembers | discordtextsanitizer/_sanitizers.py:9-11 | The table holds U+202E and `\|`. U+D800 and U+DFFF are in it but U+D801 and U+DC01 are not, because the surrogates are single points. The range U+E0195..U+E01EF is inclusive. `@` and U+200B are not in the table |
| DropChars.DropKnownDropped | discordtextsanitizer/_sanitizers.py:57-59 | The result has no code point from the table. A code point occurs in the result exactly when it occurs in the input and is not in the table. The result is never longer than the input |
| DropChars.DropDistributes | discordtextsanitizer/_sanitizers.py:59 | The filter distributes over concatenation, so the kept code points stay in their original order |
| DropChars.DropCounts | discordtextsanitizer/_sanitizers.py:59 | Each code point outside the table keeps its multiplicity, and each code point in the table ends with multiplicity zero |
| DropChars.DropIdentityIffClean | discordtextsanitizer/_sanitizers.py:59 | The filter returns its input unchanged exactly when the input has no code point from the table |
| DropChars.DropIdempotent | discordtextsanitizer/_sanitizers.py:59 | Filtering twice gives the same result as filtering once |
| HtmlTags.FindCommentClose | discordtextsanitizer/_sanitizers.py:14 | The lazy `.*?-->` scan finds the first `-->` that has no line feed before it, and fails exactly when there is no such `-->` |
| HtmlTags.FindGreaterThan | discordtextsanitizer/_sanitizers.py:14 | It finds the first `>` at or after a position, or reports that there is none |
| HtmlTags.MatchAt | discordtextsanitizer/_sanitizers.py:14 | A match at a `<` is either a comment match or a tag match. A comment match is preferred whenever one exists, and it is the shortest one. There is no match exactly when neither alternative matches. In particular, a `<` followed later by a `>` always matches |
| HtmlTags.StripTags | discordtextsanitizer/_sanitizers.py:49-50 | The output has no `<` followed later by a `>`. Every output code point comes from the input. The output is never longer than the input |
| HtmlTags.NoMatchWithoutTag | discordtextsanitizer/_sanitizers.py:14 | On text where no `<` is followed by a `>`, neither alternative matches |
| HtmlTags.StripTagsIdentityIff | discordtextsanitizer/_sanitizers.py:50 | Stripping returns its input unchanged exactly when no `<` in it is followed later by a `>` |
| HtmlTags.StripTagsIdempotent | discordtextsanitizer/_sanitizers.py:50 | Stripping twice gives the same result as stripping once |
| HtmlTags.StripTagsKeepsPlainPrefix | discordtextsanitizer/_sanitizers.py:50 | A prefix with no `<` is copied through unchanged, and the rest is stripped on its own |
| HtmlTags.StripTagsDeletesMatch | discordtextsanitizer/_sanitizers.py:50 | After a prefix with no `<`, the leftmost match is deleted and every code point after it is kept for the rest of the scan. The match is the shortest comment when one exists, and otherwise the tag up to the first `>`. Together with `StripTagsIdentityIff` this fixes the output for every input |
| HtmlTags.StripBoldExample | discordtextsanitizer/_sanitizers.py:13-14 | `<b>hi</b>` becomes `hi` |
| HtmlTags.CommentWinsExample | discordtextsanitizer/_sanitizers.py:14 | `<!-- a > b -->x` becomes `x`: the comment alternative wins over the first `>` |
| HtmlTags.LineFeedFallbackExample | discordtextsanitizer/_sanitizers.py:14 | In `<!-- a\n> b -->c`, the line feed defeats the comment alternative. The match falls back to the first `>`, giving ` b -->c` |
| Mentions.EscapeMentions | discordtextsanitizer/_sanitizers.py:94 | The output is never shorter than the input, and text without `@` comes back unchanged. Its full behaviour is stated by the lemmas below: `EscapeCounts`, `EscapeBreaksAllMentions`, `EscapeContents` and `EscapeRoundTrip` |
| Mentions.EscapeCounts | discordtextsanitizer/_sanitizers.py:94 | The output length is the input length plus the number of `@`, and the number of `@` is unchanged |
| Mentions.EscapeBreaksAllMentions | discordtextsanitizer/_sanitizers.py:94 | Every `@` of the output is immediately followed by U+200B |
| Mentions.EscapeContents | discordtextsanitizer/_sanitizers.py:94 | A code point occurs in the output exactly when it occurs in the input, or it is U+200B and the input has an `@` |
| Mentions.EscapeRoundTrip | discordtextsanitizer/_sanitizers.py:94 | Removing the U+200B after each `@` gives back the input |
| Mentions.EscapeOfRestore | discordtextsanitizer/_sanitizers.py:94 | On text where every `@` is followed by U+200B, removing those breaks and substituting again gives the text back. So the substitution's output is the only text with all `@` broken whose breaks, once removed, give the input |
| Mentions.EscapeDistributes | discordtextsanitizer/_sanitizers.py:19 | The substitution distributes over concatenation, so each `@` is handled on its own |
| Mentions.EscapeIdentityIff | discordtextsanitizer/_sanitizers.py:94 | The substitution returns its input unchanged exactly when the input has no `@` |
| Mentions.EscapeTwiceAddsBreaks | discordtextsanitizer/_sanitizers.py:92-94 | On text with an `@`, a second pass changes the result, so the substitution is not idempotent. The number of `@` stays the same |
| Mentions.EscapeTwiceExample | discordtextsanitizer/_sanitizers.py:94 | Two passes turn `@` into `@` U+200B U+200B |
| Mentions.EveryoneExample | discordtextsanitizer/_sanitizers.py:94 | `@everyone` becomes `@` U+200B `everyone` |
| Mentions.EveryMentionExample | discordtextsanitizer/_sanitizers.py:19 | `a@b@c` becomes `a@` U+200B `b@` U+200B `c` |
| Sanitizers.PreprocessText | discordtextsanitizer/_sanitizers.py:22-61 | For every flag combination and every library behaviour, the output has no code point from the drop table |
| Sanitizers.EscapeKeepsClean | discordtextsanitizer/_sanitizers.py:94 | The mention substitution never adds a dropped code point to text that has none |
| Sanitizers.SanitizeMassMentions | discordtextsanitizer/_sanitizers.py:64-94 | Every `@` of the result is followed by U+200B. Removing those breaks gives the preprocessed text when preprocessing runs, and the input otherwise. With preprocessing, the result has no dropped code point |
| Sanitizers.SanitizeDetermined | discordtextsanitizer/_sanitizers.py:92-94 | The contract of `SanitizeMassMentions` fixes its result: any text that meets both of its mention clauses equals it. Without `run_preprocess`, the result is exactly the substitution applied to the input |
| Sanitizers.Plan | discordtextsanitizer/_sanitizers.py:49-59 | Tag stripping is a step exactly when `strip_html` is set, and display reordering exactly when `fix_directional_overrides` is set. Mojibake repair always runs, with `fix_entities` equal to `strip_html`. The drop pass is last, and the steps keep the source's order |
| Sanitizers.RunEndingInDropIsClean | discordtextsanitizer/_sanitizers.py:57-59 | Whatever steps come before it, a run whose last step is the drop pass leaves no dropped code point |
| Sanitizers.PreprocessFollowsPlan | discordtextsanitizer/_sanitizers.py:49-61 | `preprocess_text` equals running the steps of its plan in order |
| Sanitizers.PreprocessIdentityOnCleanText | discordtextsanitizer/_sanitizers.py:49-61 | This holds for every combination of the flags. Suppose the text has no dropped code point, and it has no tag when tags are stripped. Suppose also that mojibake repair leaves it alone and, when display reordering runs, so does reordering. Then preprocessing returns the text unchanged |
| Sanitizers.BoldTagStrippedExample | discordtextsanitizer/_sanitizers.py:49-59 | With `strip_html` and display reordering on (its default), `<b>hi</b>` preprocesses to `hi`. This assumes mojibake repair and display reordering both leave `hi` alone |
| Sanitizers.BoldTagKeptExample | discordtextsanitizer/_sanitizers.py:22-61 | With the default options, `<b>hi</b>` keeps its tags. The defaults are `strip_html` off and display reordering on. This assumes mojibake repair and display reordering both leave `<b>hi</b>` alone |
| Sanitizers.SanitizeDefaultsExample | discordtextsanitizer/_sanitizers.py:64-94 | With every option at its default (`run_preprocess` on, `strip_html` off, display reordering on), `@everyone` becomes `@` U+200B `everyone`. This assumes mojibake repair and display reordering both leave `@everyone` alone |
| Sanitizers.SanitizeWithoutPreprocessExamples | discordtextsanitizer/_sanitizers.py:92-94 | Without preprocessing, `@everyone` becomes `@` U+200B `everyone`, and `no mentions here` is returned unchanged |

## Left out

- `ftfy.fix_text` (line 52) is not modelled. It is the mojibake and HTML-entity repair heuristic of an external library, so it appears only as the arbitrary function `Library.fixText`.
- `bidi.algorithm.get_display` (line 55) is not modelled. It implements the Unicode Bidirectional Algorithm (UAX #9) in an external library, so it appears only as the arbitrary function `Library.getDisplay`. Nothing in the model claims that it removes U+202E; only the drop pass guarantees that.
- The general regular-expression engine is not modelled. Each of the three patterns is written out directly as a recursive function.
- The `**kwargs` passthrough of `sanitize_mass_mentions` (line 93) is modelled only for the two explicit boolean options. With `run_preprocess` true, an unknown keyword makes `preprocess_text` raise `TypeError`. With it false, the keywords are ignored, as `options` is in `SanitizeMassMentions`.
- Default argument values are the constants `DefaultPreprocessOptions` and `DefaultRunPreprocess`. Callers of the model always pass every option explicitly, because Dafny functions here take no optional arguments.
