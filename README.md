# Stellar-Mark core in Dafny

Stellar-Mark is a Markdown blog with a space theme. This project models the parts of it with real logic and proves properties about them:

- **Markdown utilities** (`lib/utils/markdown.ts`):
  - the table of contents built from `##` and `###` headings (`extractTOC`);
  - the anchor slug of a heading (`generateSlug`);
  - hard truncation with an ellipsis (`truncateText`);
  - the plain-text summary of a post (`extractDescription`).

  Every regular expression is a match function at one position that follows the backtracking of a JavaScript engine. A global `exec` loop or `replace` scans positions from left to right.
- **Post creation** (`app/actions/post.ts`, `createPost`): insert the post, then find or create each tag and link it. The database is a class `BlogStore` holding the `posts`, `tags` and `posts_tags` tables. The loop is proved against a pure function, `Reconcile`, over the tag tables.
- **Constants** (`lib/constants/index.ts`): the session cookie name and lifetime, and the arithmetic captcha.
- **Comment form** (`comment-form.tsx`): the form state as a class. It models the four validation rules, the payload sent on submit, and the reset after a successful submission.
- **Editor pane** (`editor-pane.tsx`): the text area as a class. Tab replaces the selection with two spaces, and the height is fitted to the content with a floor of 500 pixels.
- **Performance mode** (`use-performance-mode.ts`):
  - the hook as a class whose state is tied to a pure transition function;
  - a stored preference beats the system preference;
  - a toggle stores the new value;
  - once a value is stored, system change events are ignored.
- **Admin session** (`use-admin-session.ts`): `document.cookie` holds a session exactly when one of its `;`-separated entries, trimmed, starts with `stellar-admin-session=`. The login route sets that cookie `httpOnly` (`app/api/auth/login/route.ts:27`), and browsers leave such cookies out of `document.cookie`, so after the site's own login this test does not see the session (see Left out).

Three behaviours of the code are worth knowing:

- `generateSlug` trims white space only, and by then white space has already become hyphens, so a leading hyphen can stay: `"! a"` gives `"-a"` (`Markdown.SlugKeepsLeadingHyphen`).
- `createPost` trims each tag name before looking it up, so names that differ only in surrounding white space share one tag. That tag is still linked once per occurrence of the name (`PostActions.ReconcileSample`).
- The comments at `lib/utils/markdown.ts:53` and `:55` say that link text is kept and images are removed. The link pass runs first, though, and matches the `[alt](url)` inside an image. So `![alt](url)` loses its brackets, its parentheses and its URL and comes out as `!alt`, which the image pass no longer matches (see Findings).

JavaScript built-ins are modelled in module `Text`:

- `trim`, and the `\s` class of regular expressions: the same white-space set as JavaScript's, over Unicode code points.
- `split` on one separator character.
- `substring` and `slice`, with JavaScript's clamping of indices.
- `parseInt(s, 10)`, with `None` for NaN.
- Decimal rendering of numbers.

## Model

| member | source | states |
|---|---|---|
| Text.Trim | lib/utils/markdown.ts:14 | `trim` returns the input without its leading and trailing white space. The result is empty exactly when the input is all white space; otherwise it starts and ends with a non-blank character. |
| Text.TrimUntrimmed | app/actions/post.ts:69 | A name that already starts and ends with a non-blank character is left unchanged by `trim`. |
| Text.TrimAfterSpace | hooks/use-admin-session.ts:18 | Leading white space does not change what `trim` returns. |
| Text.TrimBetween | components/features/comment/comment-form.tsx:65 | Blank on both sides of a span that starts and ends non-blank, `trim` returns exactly that span. |
| Text.Split | hooks/use-admin-session.ts:16 | `split` returns at least one part, and no part contains the separator. |
| Text.SplitJoin | hooks/use-admin-session.ts:16 | Joining the parts of `split` with the separator gives back the input. |
| Text.SplitConcat | hooks/use-admin-session.ts:16 | Splitting `a;b` gives the parts of `a` followed by the parts of `b`. |
| Text.SplitWithoutSeparator | hooks/use-admin-session.ts:16 | A text without the separator splits into itself alone. |
| Text.Substring | components/features/admin/editor-pane.tsx:29 | `substring` with indices in range is the slice between them, and it is never longer than the input. |
| Text.Slice | app/actions/post.ts:56 | `slice` with in-range indices is the slice between them. It is never longer than the requested range, and it is a span of the input that starts at the clamped start. |
| Text.Decimal | lib/constants/index.ts:38 | `${n}` of a non-negative integer is a non-empty run of decimal digits. |
| Text.NumeralOfDecimal | lib/constants/index.ts:38 | Reading the decimal numeral of `n` back gives `n`. |
| Text.ParseInt | components/features/comment/comment-form.tsx:48 | `parseInt` is NaN exactly when no digit follows the blanks and the optional sign. |
| Text.ParseIntDecimal | components/features/comment/comment-form.tsx:48 | `parseInt` of `${n}` is `n`. |
| Text.ParseIntDecimalPrefix | components/features/comment/comment-form.tsx:48 | `parseInt` skips leading blanks and stops at the first non-digit, so blanks, `${n}`, then other text parse as `n`. |
| Constants.Operand | lib/constants/index.ts:33-34 | `Math.floor(r * 10) + 1` is an operand from 1 to 10, the floor of `10r` plus one. |
| Constants.OperatorIndex | lib/constants/index.ts:35 | The operator index is a valid index of the two operators, and it is 0 (`+`) exactly when the draw is below one half. |
| Constants.GenerateCaptcha | lib/constants/index.ts:32-44 | The answer lies from 0 to 20. For subtraction it is at most 9. |
| Constants.ReadQuestion | lib/constants/index.ts:38-42 | Reading a question back yields one of the two operators. |
| Constants.SplitQuestion | lib/constants/index.ts:38-42 | A question splits at its spaces into the left numeral, the operator, the right numeral, `=` and `?`. |
| Constants.ReadQuestionText | lib/constants/index.ts:38-42 | Round trip: reading the rendered question gives back its operands and operator. |
| Constants.Max | lib/constants/index.ts:40 | `Math.max` of two operands is one of them and no smaller than either. |
| Constants.Min | lib/constants/index.ts:41 | `Math.min` of two operands is one of them and no larger than either. |
| Constants.CaptchaAnswersItsQuestion | lib/constants/index.ts:32-44 | The answer is the value of the question shown. Below one half the question is `Operand(r1) + Operand(r2)`, in draw order; otherwise it is `Max(a, b) - Min(a, b)` of the two operands, so a subtraction never goes below zero. The operands lie from 1 to 10. |
| Constants.CaptchaAnswerParses | lib/constants/index.ts:38-42 | Typing the decimal answer parses back to the answer. |
| Constants.SessionMaxAgeIsThirtyDays | lib/constants/index.ts:25 | The session lifetime is 2,592,000 seconds. |
| Markdown.Lower | lib/utils/markdown.ts:28 | `toLowerCase`, character by character, for the characters whose lower case the slug keeps. Proved properties: `LowerHasNoCapitals`, `LowerOfSlugChars`. |
| Markdown.RemoveUnkept | lib/utils/markdown.ts:29 | `replace(/[^\w\s가-힣-]/g, '')`: keeps exactly the word, white-space, Hangul-syllable and hyphen characters. Proved properties: `RemoveUnkeptChars`, `RemoveUnkeptOfSlugChars`. |
| Markdown.ReplaceRuns | lib/utils/markdown.ts:30-31 | `replace(/C+/g, '-')`: each maximal run of the class becomes one hyphen. Proved properties: `ReplaceRunsChars`, `ReplaceRunsNoAdjacent`, `ReplaceRunsNone`, `ReplaceRunsSingles`. |
| Markdown.Slug | lib/utils/markdown.ts:26-33 | `generateSlug`: the four replacements in the source's order, then `trim`. Proved properties: `SlugAlphabet`, `SlugNoDoubleHyphen`, `SlugIdempotent`, `SlugTrimIsNoOp`. |
| Markdown.LowerHasNoCapitals | lib/utils/markdown.ts:28 | After lower-casing, no ASCII capital is left. |
| Markdown.RemoveUnkeptChars | lib/utils/markdown.ts:29 | What survives `[^\w\s가-힣-]` removal are input characters that are word, white-space, Hangul-syllable or hyphen characters. |
| Markdown.ReplaceRunsChars | lib/utils/markdown.ts:30-31 | Collapsing runs leaves only hyphens and characters of the input outside the class. |
| Markdown.ReplaceRunsNoAdjacent | lib/utils/markdown.ts:30-31 | After collapsing, no two neighbours are both in the class. |
| Markdown.ReplaceRunsNone | lib/utils/markdown.ts:30-31 | A text with no character of the class is left as it is. |
| Markdown.ReplaceRunsSingles | lib/utils/markdown.ts:30-31 | A text whose class characters are isolated hyphens is left as it is. |
| Markdown.HyphenatedChars | lib/utils/markdown.ts:28-31 | Before the final trim, every character is a lower-case word character, a Hangul syllable or a hyphen. |
| Markdown.SlugTrimIsNoOp | lib/utils/markdown.ts:32 | The final `trim` of `generateSlug` never removes anything. |
| Markdown.SlugAlphabet | lib/utils/markdown.ts:26-33 | Every slug character is a slug character and never white space. |
| Markdown.SlugNoDoubleHyphen | lib/utils/markdown.ts:30-31 | A slug never holds two hyphens in a row. |
| Markdown.LowerOfSlugChars | lib/utils/markdown.ts:28 | Lower-casing leaves a text of slug characters unchanged. |
| Markdown.RemoveUnkeptOfSlugChars | lib/utils/markdown.ts:29 | The removal step leaves a text of slug characters unchanged. |
| Markdown.SlugOfSlugText | lib/utils/markdown.ts:26-33 | Text made of slug characters without double hyphens is its own slug. |
| Markdown.SlugIdempotent | lib/utils/markdown.ts:26-33 | The slug of a slug is that slug. |
| Markdown.SlugOfCapital | lib/utils/markdown.ts:28 | The slug of one ASCII capital is that letter in lower case. |
| Markdown.SlugKeepsLeadingHyphen | lib/utils/markdown.ts:29-32 | `"! c"` slugs to `"-c"` for every lower-case letter c, `"! a"` to `"-a"` among them: the leading hyphen is kept. |
| Markdown.LineEnd | lib/utils/markdown.ts:8 | `$` in multiline mode matches at or after the given position, within the text. |
| Markdown.TryBody | lib/utils/markdown.ts:8 | The backtracking of `\s+` before `(.+)` gives a non-empty capture that runs to the end of its line. |
| Markdown.BodyAt | lib/utils/markdown.ts:8 | `\s+(.+)$` after the hashes gives a non-empty capture that runs to the end of the line. |
| Markdown.TryHashes | lib/utils/markdown.ts:8 | A match of `#{lo,n}` found by backtracking has a level within bounds and a body after the hashes that ends its line. |
| Markdown.HeadingAt | lib/utils/markdown.ts:8 | A match of `^(#{lo,hi})\s+(.+)$` at p starts at p, has a level within bounds, and has a non-empty body that ends its line. |
| Markdown.NextHeading | lib/utils/markdown.ts:12 | `exec` finds the leftmost match at or after `lastIndex`. No position before it matches, and when nothing is found no position matches. |
| Markdown.TocMatches | lib/utils/markdown.ts:12 | Every match the `exec` loop collects lies within the text, after its starting point. |
| Markdown.ItemOf | lib/utils/markdown.ts:13-17 | The entry pushed for one match: the number of hashes as level, the trimmed capture as text, its slug as id. Proved properties: `TocEntries`, `ItemOfCapital`. |
| Markdown.ItemsOf | lib/utils/markdown.ts:13-17 | One item is pushed per match. |
| Markdown.TocMatchesWithinText | lib/utils/markdown.ts:12 | The collected matches can be read from the text. |
| Markdown.Toc | lib/utils/markdown.ts:7-21 | The table of contents: one entry per match the `exec` loop visits, in order. Proved properties: `TocEntries`, `TocMatchSound`, `TocMatchesOrdered`, `TocMatchesComplete`, `DuplicateHeadingsShareId`. |
| Markdown.ExtractTOC | lib/utils/markdown.ts:7-21 | The `while` loop over `exec` returns exactly the table of contents `Toc` of the text. |
| Markdown.TocMatchSound | lib/utils/markdown.ts:8-12 | Every collected match is a match of the heading pattern at its start. |
| Markdown.TocMatchesOrdered | lib/utils/markdown.ts:12 | Matches come in document order and do not overlap. |
| Markdown.TocMatchesComplete | lib/utils/markdown.ts:8-12 | Every position where the heading pattern matches lies inside a collected match, so no heading is missed. |
| Markdown.NextHeadingFinds | lib/utils/markdown.ts:12 | When the pattern matches at p, `exec` finds a match no later than p. |
| Markdown.TocEntries | lib/utils/markdown.ts:7-21 | Entry i of the table comes from match i, which starts a line. Its level is the number of hashes (2 or 3), its text is the trimmed capture, and its id is the slug of that text. |
| Markdown.HeadingLine | lib/utils/markdown.ts:8-14 | A line of two or three hashes, a blank and some non-blank text is a heading of that level, whose trimmed text is the trimmed rest of the line. |
| Markdown.OtherLevelsSkipped | lib/utils/markdown.ts:8 | A run of one hash, or of four or more, never matches: `#` and `####` headings are left out. |
| Markdown.DuplicateHeadingsShareId | lib/utils/markdown.ts:15 | Two entries with the same text get the same id; ids are not de-duplicated. |
| Markdown.ItemOfCapital | lib/utils/markdown.ts:13-17 | A heading whose text is one capital letter gets an entry with that text and, as id, the letter in lower case. |
| Markdown.TruncateText | lib/utils/markdown.ts:38-41 | A text within the limit is returned unchanged. A longer one becomes its first `maxLength` characters, trimmed, followed by `...`. |
| Markdown.TruncateCleanCut | lib/utils/markdown.ts:38-41 | A cut that neither starts nor ends with a blank is kept whole before `...`, so `("Hello world", 5)` gives `"Hello..."`. |
| Markdown.IndexFrom | lib/utils/markdown.ts:52-56 | Finds the first occurrence of a character at or after k, or reports that there is none. |
| Markdown.FenceFrom | lib/utils/markdown.ts:50 | The lazy `[\s\S]*?` stops at the first fence at or after k: none lies before it, and `None` means there is no fence from k on. |
| Markdown.TargetAfter | lib/utils/markdown.ts:54-56 | `\]\([^)]+\)` after the bracket at q: `(` follows it, the match ends with `)`, no `)` lies between, and the target is not empty. |
| Markdown.PassAt | lib/utils/markdown.ts:48-56 | A match of any of the five patterns ends after its start and within the text, and has its pattern's shape: a heading match; a fence at each end; backticks at each end with none between; `[`, a non-empty text without `]` that becomes the replacement, `]` and a closing `)`; `![` and a closing `)`. Every pass except the link pass replaces its match by nothing. |
| Markdown.ReplaceFrom | lib/utils/markdown.ts:48-56 | A global `replace` from one position on: at each position the pass either rewrites its match and goes on after it, or keeps the character. Proved properties: `ReplaceFromLacking`, `LinkAt`, `ImageAt`. |
| Markdown.Replace | lib/utils/markdown.ts:48-56 | A global `replace` over the whole text, from position 0. |
| Markdown.StripMarkup | lib/utils/markdown.ts:47-56 | The five passes of `extractDescription`, in the source's order. Proved properties: `StripMarkupPlain`, `LinkKeepsText`, `ImageLeavesAltText`. |
| Markdown.FirstNonBlank | lib/utils/markdown.ts:57-61 | The result is `''` exactly when every line is blank. Otherwise it is the first line that is not blank, trimmed: every line before it is blank. |
| Markdown.BlankHeadShift | lib/utils/markdown.ts:58-61 | After a blank first line, the first non-blank line of the rest is the first non-blank line of all. |
| Markdown.LinesOf | lib/utils/markdown.ts:59 | `split('\n')` yields lines without a newline. |
| Markdown.Describe | lib/utils/markdown.ts:57-63 | The summary is empty exactly when every line is blank. Otherwise it is the first line that is not blank, trimmed and truncated. It holds no newline. |
| Markdown.TruncatedFirst | lib/utils/markdown.ts:58-63 | The truncated summary is the truncation of the first non-blank line, or of a blank line when there is none. |
| Markdown.ExtractDescription | lib/utils/markdown.ts:46-64 | `extractDescription`: empty exactly when every line of the stripped text is blank. Otherwise it is the first line of the stripped text that is not blank, trimmed and truncated. It holds no newline. |
| Markdown.DescribeLine | lib/utils/markdown.ts:58-63 | One line without surrounding blanks that fits the limit is its own summary. |
| Markdown.TruncateLacks | lib/utils/markdown.ts:38-41 | Neither trimming nor truncation adds a character other than `.`. |
| Markdown.FirstNonBlankLacks | lib/utils/markdown.ts:58-63 | The summary holds no character, other than `.`, that appears in none of the lines. |
| Markdown.PassAtNone | lib/utils/markdown.ts:48-56 | A pattern whose marker characters are absent never matches. |
| Markdown.ReplaceFromLacking | lib/utils/markdown.ts:48-56 | A global replace whose pattern cannot match leaves the text unchanged. |
| Markdown.StripMarkupPlain | lib/utils/markdown.ts:47-56 | Text with no `#`, backtick, `[` or `!` goes through the five passes unchanged. |
| Markdown.PlainDescription | lib/utils/markdown.ts:46-63 | A plain one-line text is summarised as itself, trimmed and truncated. |
| Markdown.IndexFromAt | lib/utils/markdown.ts:52-56 | The search finds the given first occurrence. |
| Markdown.TargetAt | lib/utils/markdown.ts:54-56 | `(url)` after the bracket is a target that ends right after it. |
| Markdown.LinkAt | lib/utils/markdown.ts:54 | `[text](url)` anywhere in the text is matched as a whole and replaced by `text`. |
| Markdown.ImageAt | lib/utils/markdown.ts:56 | `![alt](url)` anywhere in the text, when the image pass sees it, is matched as a whole and removed. |
| Markdown.FenceAt | lib/utils/markdown.ts:50 | A fenced block with no fence inside is matched up to its closing fence and removed. |
| Markdown.FenceBlockRemoved | lib/utils/markdown.ts:50 | A text that is one fenced block, with no fence inside, is removed entirely by the fence pass. |
| Markdown.StripCodeAndHeadingsPlain | lib/utils/markdown.ts:48-52 | The heading, fence and inline-code passes leave text without their markers unchanged. |
| Markdown.UnwrapWholeLink | lib/utils/markdown.ts:54 | The link pass turns a text that is one whole link into the link's text. |
| Markdown.LinkKeepsText | lib/utils/markdown.ts:54 | Through all passes, a link keeps exactly its text. |
| Markdown.ImageLeavesAltText | lib/utils/markdown.ts:54-56 | As written, an image `![alt](url)` comes out as `!alt`: the link pass consumes it before the image pass runs. |
| Markdown.ImageDescriptionSample | lib/utils/markdown.ts:46-63 | As written, the summary of `![alt](u)` is `"!alt"`. |
| Markdown.ImagesFirstRemovesImage | lib/utils/markdown.ts:54-56 | With images removed before links, an image disappears, and a post that is only an image has an empty summary. |
| Markdown.ImagesFirstKeepsLinkText | lib/utils/markdown.ts:54-56 | With images removed first, a link still keeps exactly its text. |
| Markdown.ImagesFirstPlain | lib/utils/markdown.ts:47-56 | With images removed first, plain text still passes unchanged. |
| PostActions.AutoDescription | app/actions/post.ts:56 | The description is the first 150 characters plus `...`. The ellipsis is added even when nothing was cut, so the description is at most 153 long. |
| PostActions.LinksFor | app/actions/post.ts:93-94 | At most one link per name. |
| PostActions.Step | app/actions/post.ts:69-94 | One loop iteration: trim the name, then resolve it. Proved property: `StepKeeps`. |
| PostActions.Resolve | app/actions/post.ts:70-94 | The iteration on the trimmed name: skip it when empty, link the existing tag, skip it when the insert fails, or create the tag with the next id and link it. Proved properties: `ResolveKeeps`, `ResolveLinks`, `ResolveAgrees`. |
| PostActions.Reconcile | app/actions/post.ts:67-95 | The loop over the names, in input order. Proved properties: `ReconcileKeeps`, `ReconcileTagNames`, `ReconcileLinks`. |
| PostActions.NewNames | app/actions/post.ts:69-90 | The names that get a new tag: non-empty once trimmed and not rejected. Proved properties: `NewNamesSnoc`, `ReconcileTagNames`. |
| PostActions.ResolveKeeps | app/actions/post.ts:73-94 | One resolved name keeps the tables valid and never changes an existing tag. It adds a tag exactly when the name is non-empty and not rejected. |
| PostActions.StepKeeps | app/actions/post.ts:69-94 | One loop iteration keeps the tables valid and never changes an existing tag. It adds the trimmed name exactly when that is non-empty and not rejected. |
| PostActions.ReconcileKeeps | app/actions/post.ts:67-95 | The loop keeps the tables valid. It never changes or drops a tag, and it leaves every non-blank name as a tag or as a rejected name. |
| PostActions.ReconcileCovers | app/actions/post.ts:67-95 | After the loop, every name that is not blank once trimmed is a tag or was rejected. |
| PostActions.ReconcileTagNames | app/actions/post.ts:67-95 | After the loop, the tags are the old tags plus each trimmed, non-empty, not rejected name, once each however often it occurs. |
| PostActions.NewNamesSnoc | app/actions/post.ts:68 | One more name adds at most its trimmed form to the new names. |
| PostActions.LinksForAgree | app/actions/post.ts:93-94 | Links depend only on how the listed names resolve. |
| PostActions.ResolveLinks | app/actions/post.ts:92-94 | A name appends one link, to its tag, exactly when it resolves to a tag. |
| PostActions.ResolveAgrees | app/actions/post.ts:80-90 | A name that is already a tag, or is rejected, resolves the same way after another name is processed. |
| PostActions.ReconcileLinks | app/actions/post.ts:67-95 | The loop appends one link per name that resolves to a tag, in input order, without de-duplication, each to the tag the name ends up with. |
| PostActions.ReconcileSnoc | app/actions/post.ts:68 | Processing one more name is one more loop step. |
| PostActions.PaddedName | app/actions/post.ts:69 | A name padded with white space trims to the name. |
| PostActions.ReconcileSample | app/actions/post.ts:67-95 | For names shaped like `["React", " React ", "", "TypeScript"]` on empty tables: two tags with ids 0 and 1, two links to the first, one link to the second. |
| PostActions.ResolveSample | app/actions/post.ts:69-94 | The same sample on its trimmed names. |
| PostActions.ReconcileFour | app/actions/post.ts:68 | The loop over four names is four steps in order. |
| PostActions.ReconcileTwo | app/actions/post.ts:68 | The loop over two names is two steps in order. |
| PostActions.ReconcileRejectedSample | app/actions/post.ts:83-88 | A name whose insert fails gets neither a tag nor a link, and the next name still gets both. |
| PostActions.ResolveRejected | app/actions/post.ts:83-88 | The same case on trimmed names. |
| PostActions.BlogStore.constructor | app/actions/post.ts:48 | Empty tables, with the given insert failures. |
| PostActions.BlogStore.InsertPost | app/actions/post.ts:51-59 | A failing insert changes nothing. Otherwise one row with the next id is appended and returned. |
| PostActions.BlogStore.FindTag | app/actions/post.ts:74-78 | Returns the tag of exactly this name, or none. |
| PostActions.BlogStore.InsertTag | app/actions/post.ts:83-86 | A rejected or taken name fails and changes nothing. Otherwise a tag with the next id is added and returned. |
| PostActions.BlogStore.InsertLink | app/actions/post.ts:93-94 | Appends exactly one link. |
| PostActions.BlogStore.AddTag | app/actions/post.ts:69-94 | One iteration changes the tables as `Step` says, and the posts not at all. |
| PostActions.BlogStore.LinkTags | app/actions/post.ts:67-96 | The loop changes the tables as `Reconcile` says, and the posts not at all. |
| PostActions.BlogStore.CreatePost | app/actions/post.ts:42-103 | A failing post insert throws `글 작성에 실패했습니다.` before any tag is touched, and nothing changes. Otherwise one post with the automatic description is added, the tag tables become the reconciliation of the names, and the action succeeds. |
| CommentForm.KeyName | components/features/comment/comment-form.tsx:40-49 | The error keys are `nickname`, `password`, `content` and `captcha`. |
| CommentForm.ValidationErrors | components/features/comment/comment-form.tsx:36-53 | Each key is present exactly when its rule is broken, with that rule's message. |
| CommentForm.Passes | components/features/comment/comment-form.tsx:39-50 | All four rules hold: nickname and content not blank, password not blank and at least four long, answer parses to the captcha's answer. Proved property: `NoErrorsIffPasses`. |
| CommentForm.NoErrorsIffPasses | components/features/comment/comment-form.tsx:52-53 | There are no errors exactly when all four rules pass. |
| CommentForm.TrimOfFilled | components/features/comment/comment-form.tsx:65-67 | A non-blank field trims to a text that starts and ends non-blank. |
| CommentForm.PayloadOf | components/features/comment/comment-form.tsx:64-68 | The nickname and content are sent trimmed; the password is sent as typed. |
| CommentForm.ValidPayload | components/features/comment/comment-form.tsx:59-68 | A valid form sends a trimmed, non-empty nickname and content, and a password of at least four characters that is not blank. Its captcha answer parses to the expected number. |
| CommentForm.BlankPasswordRejected | components/features/comment/comment-form.tsx:42 | Four spaces are not a password. |
| CommentForm.PaddedPasswordAccepted | components/features/comment/comment-form.tsx:42 | `" ab "` passes: the length is taken before trimming. |
| CommentForm.DigitPrefixAnswers | components/features/comment/comment-form.tsx:48 | `"7x"` answers 7, because `parseInt` stops at the first non-digit. |
| CommentForm.NonNumericRejected | components/features/comment/comment-form.tsx:48 | An answer without a leading number is always wrong. |
| CommentForm.DecimalAnswerAccepted | components/features/comment/comment-form.tsx:48 | Typing the decimal answer of the captcha passes. |
| CommentForm.Form.constructor | components/features/comment/comment-form.tsx:19-25 | The `useState` initial values. |
| CommentForm.Form.Mount | components/features/comment/comment-form.tsx:27-29 | Mounting draws a captcha and changes nothing else. |
| CommentForm.Form.RefreshCaptcha | components/features/comment/comment-form.tsx:31-34 | A new captcha and an empty answer; nothing else changes. |
| CommentForm.Form.Validate | components/features/comment/comment-form.tsx:36-54 | Records exactly the broken rules. Returns true exactly when there are none, which is exactly when all rules pass. The inputs are unchanged. |
| CommentForm.Form.ClearAfterSuccess | components/features/comment/comment-form.tsx:70-77 | Empties the inputs, draws a new captcha and empties the errors. |
| CommentForm.Form.SubmitValidated | components/features/comment/comment-form.tsx:61-80 | After validation: when `onSubmit` succeeds, the inputs and errors are emptied and a new captcha drawn; otherwise nothing changes. The form is no longer submitting. |
| CommentForm.Form.HandleSubmit | components/features/comment/comment-form.tsx:56-81 | An invalid form records its errors, sends nothing and keeps its inputs. A valid form sends the shaped payload with no errors. When `onSubmit` succeeds the inputs are cleared and the captcha is renewed; otherwise the inputs are kept. The form is never left submitting. |
| EditorPane.TabInsert | components/features/admin/editor-pane.tsx:29 | The text before the selection is kept, then two spaces, then the text after the selection; the length changes accordingly. |
| EditorPane.RemoveIndent | components/features/admin/editor-pane.tsx:29 | Taking the two spaces back out leaves the text with the selection deleted. With no selection, that is the original text. |
| EditorPane.FittedHeight | components/features/admin/editor-pane.tsx:19 | The height is the larger of the content height and 500. |
| EditorPane.TextArea.constructor | components/features/admin/editor-pane.tsx:11-12 | A text area with a collapsed cursor at the start. |
| EditorPane.TextArea.AutoResize | components/features/admin/editor-pane.tsx:15-21 | The height becomes the fitted height; the text and selection are unchanged. |
| EditorPane.TextArea.HandleKeyDown | components/features/admin/editor-pane.tsx:23-36 | Tab replaces the selection with two spaces, reports the new text and leaves the cursor after the spaces. Any other key changes nothing and reports nothing. |
| PerformanceMode.BoolString | hooks/use-performance-mode.ts:42 | `String(b)` is `"true"` exactly for true. |
| PerformanceMode.GetItem | hooks/use-performance-mode.ts:21 | `getItem` is null exactly for an absent key; otherwise it returns the stored string. |
| PerformanceMode.UserPreference | hooks/use-performance-mode.ts:22 | There is a preference exactly when something is stored. It is true exactly when the stored value is `"true"`. |
| PerformanceMode.Resolve | hooks/use-performance-mode.ts:25 | A stored value wins. Only without one does the system preference count. |
| PerformanceMode.Initial | hooks/use-performance-mode.ts:12-13 | The hook starts not reduced and not loaded. |
| PerformanceMode.Loaded | hooks/use-performance-mode.ts:15-26 | Mounting loads the mode, setting it from the stored value or else from the system. |
| PerformanceMode.Apply | hooks/use-performance-mode.ts:29-45 | One event: a toggle flips the mode and stores it; a system change is taken over only while nothing is stored. Proved properties: `ToggleStores`, `SystemChangeRule`. |
| PerformanceMode.Run | hooks/use-performance-mode.ts:29-45 | A sequence of events, in order. Proved properties: `RunKeepsSynced`, `SystemChangesIgnored`. |
| PerformanceMode.ToggleStores | hooks/use-performance-mode.ts:39-45 | A toggle flips the mode and stores it; other keys are untouched. |
| PerformanceMode.ToggleTwice | hooks/use-performance-mode.ts:39-45 | Two toggles restore the mode and leave it stored. |
| PerformanceMode.SystemChangeRule | hooks/use-performance-mode.ts:29-33 | A system change is followed only while nothing is stored. |
| PerformanceMode.RunKeepsSynced | hooks/use-performance-mode.ts:29-45 | Once the stored value matches the mode, any sequence of events keeps it so. |
| PerformanceMode.StoredAfterToggle | hooks/use-performance-mode.ts:29-45 | After a first toggle, the stored value always matches the mode. |
| PerformanceMode.SystemChangesIgnored | hooks/use-performance-mode.ts:29-33 | With a stored value, system changes leave the state unchanged. |
| PerformanceMode.SystemIgnoredAfterToggle | hooks/use-performance-mode.ts:29-45 | After a toggle, system changes can no longer undo it. |
| PerformanceMode.StoredWins | hooks/use-performance-mode.ts:21-25 | On mount, a stored value decides the mode, whatever the system says. |
| PerformanceMode.Hook.constructor | hooks/use-performance-mode.ts:12-13 | The hook's state is the initial state. |
| PerformanceMode.Hook.Load | hooks/use-performance-mode.ts:15-26 | Mounting changes the state as `Loaded` says. |
| PerformanceMode.Hook.HandleChange | hooks/use-performance-mode.ts:29-33 | A system change updates the state as the transition function says. |
| PerformanceMode.Hook.TogglePerformanceMode | hooks/use-performance-mode.ts:39-45 | A toggle updates the state as the transition function says. |
| AdminSession.Find | hooks/use-admin-session.ts:17-19 | `find` finds something exactly when some entry passes, and then it returns the first entry that passes. |
| AdminSession.FindConcat | hooks/use-admin-session.ts:17-19 | Searching two lists one after the other finds something exactly when searching either does. |
| AdminSession.HasCookie | hooks/use-admin-session.ts:16-20 | `!!cookies.find(...)` for a prefix. Proved properties: `HasCookieIff`, `PositionIrrelevant`. |
| AdminSession.HasSession | hooks/use-admin-session.ts:15-20 | The value `checkSession` gives `isAuthenticated`. Proved property: `SessionIff`. |
| AdminSession.FoundIsTruthy | hooks/use-admin-session.ts:20 | With a non-empty prefix, `!!` only asks whether an entry was found. |
| AdminSession.HasCookieIff | hooks/use-admin-session.ts:16-20 | A cookie counts exactly when some entry, trimmed, starts with the prefix. |
| AdminSession.PositionIrrelevant | hooks/use-admin-session.ts:16-20 | Where the entry stands in the cookie string does not matter. |
| AdminSession.EmptyCookie | hooks/use-admin-session.ts:16-20 | An empty cookie string counts for no prefix. |
| AdminSession.TrimKeepsStart | hooks/use-admin-session.ts:18 | An entry that starts non-blank keeps its start when trimmed. |
| AdminSession.AnyValueCounts | hooks/use-admin-session.ts:18 | `prefix value`, after any blanks, matches whatever the value, even an empty one. |
| AdminSession.LongerNameRejected | hooks/use-admin-session.ts:18 | A name that merely begins with the cookie name does not match. |
| AdminSession.SingleEntry | hooks/use-admin-session.ts:16-20 | A cookie string holding one such entry counts. |
| AdminSession.SessionPrefixShape | lib/constants/index.ts:24 | The session prefix starts non-blank, ends with `=` and holds no `;`. |
| AdminSession.SessionIff | hooks/use-admin-session.ts:15-22 | Signed in exactly when some entry, trimmed, starts with `stellar-admin-session=`. |
| AdminSession.SessionPositionIrrelevant | hooks/use-admin-session.ts:16-20 | The session entry is found wherever it stands among the cookies. |
| AdminSession.NoCookieNoSession | hooks/use-admin-session.ts:16-20 | An empty `document.cookie` signs nobody in. |
| AdminSession.EmptyValueCounts | hooks/use-admin-session.ts:18-20 | `stellar-admin-session=` with an empty value signs in. |
| AdminSession.LongerSessionNameRejected | hooks/use-admin-session.ts:18 | `stellar-admin-session2=…` does not sign in. |
| AdminSession.Session.constructor | hooks/use-admin-session.ts:11-12 | The session starts signed out and loading. |
| AdminSession.Session.CheckSession | hooks/use-admin-session.ts:15-22 | `isAuthenticated` becomes whether the cookie holds a session, and loading ends. |

## Left out

- String lengths: JavaScript counts UTF-16 code units, while the model counts code points. This affects `slice`, `length` and `substring` on text outside the Basic Multilingual Plane.
- `toLowerCase` is modelled only for the characters whose lower case survives the slug filter: ASCII capitals, KELVIN SIGN and LATIN CAPITAL LETTER I WITH DOT ABOVE. Every other character is left as it is. The filter deletes both it and its lower case, so slugs are unaffected, but `Markdown.Lower` on its own is not JavaScript's full mapping.
- The rendered document and syntax highlighting (`markdown-renderer.tsx`) are not part of this model: the source delegates them to third-party parsers.
- Supabase and the network: the database becomes the `BlogStore` class. Which inserts fail is fixed when the store is built: the post insert by a flag, tag inserts by a set of rejected names.
- A failing tag lookup is treated as "no such tag", as the source does by reading only `data`. A failing link insert is not modelled, since the source ignores its result.
- PostActions.BlogStore.InsertLink: no uniqueness constraint on `posts_tags` is modelled. Its type lists only `post_id` and `tag_id` (`types/database.types.ts:72-85`). The two links to one tag in `ReconcileSample` and `ReconcileLinks` are therefore the inserts attempted. A composite key on the table would reject the second, and the source would ignore that failure.
- `revalidatePath` calls and `console.error` logging are left out: they are cache invalidation and output, with no effect on the data.
- The other actions of `app/actions/post.ts` (`getAdminPosts`, `deletePost` and the rest) are outside the modelled core.
- Text.ParseInt: returns the exact integer, where JavaScript returns a double that loses precision above 2^53. Comparisons with captcha answers from 0 to 20 are unaffected.
- `Math.random()` is modelled as three parameters, each a real draw in [0, 1). Floating-point rounding of `r * 10` is not modelled.
- The comment form's asynchronous timing is left out: `isSubmitting` is set and cleared within one call, and a rejected `onSubmit` promise is not modelled (`accepted` stands for its boolean result).
- The form's rendering and its `onChange` handlers are not modelled beyond writing the fields.
- EditorPane.TextArea.HandleKeyDown: the cursor update that the source defers with `setTimeout` is applied at once. React having cleared `e.currentTarget` by the time the callback runs is not modelled. `onChange` is taken to store the new value, as the parent editor page does.
- EditorPane.TextArea.AutoResize: `scrollHeight` comes from browser layout, so it is a parameter.
- `localStorage` is a map from keys to strings that the hook reads and replaces; storage failures are not modelled.
- `matchMedia` is modelled as its `matches` value and its change events. Registering and removing the listener is not modelled.
- `document.cookie` is the parameter of `CheckSession`.
- AdminSession.Session.CheckSession: takes any cookie string, though the login route sets the session cookie with `httpOnly: true` (`app/api/auth/login/route.ts:27`) and a browser never lists an HttpOnly cookie in `document.cookie`. After a login through that route, every string the hook can read therefore makes `HasSession` false. `SessionIff`, `EmptyValueCounts` and the other session lemmas speak of cookie strings that only a cookie set without `httpOnly` (by other code, or by hand) can produce. The browser's cookie jar is not modelled.
- The table of contents is proved on all inputs through the generic lemmas. A concrete worked document such as `"## A\n### B\n# C\n#### D"` is not spelled out, because evaluating the heading pattern on literal text is too costly for the verifier; `HeadingLine` and `OtherLevelsSkipped` state those cases generically.
- The other constants (`SITE_CONFIG`, navigation items, `POSTS_PER_PAGE`, the other error messages) are plain data with nothing to prove.

## Findings

| source | as written | input that shows it | evidently intended | confidence | as-written member | corrected member |
|---|---|---|---|---|---|---|
| lib/utils/markdown.ts:54-56 | Links are unwrapped before images are removed. The link pattern therefore consumes the `[alt](url)` inside every image with non-empty alt text, leaving `!alt`, and the image pattern never sees it. | `extractDescription("![alt](u)")` returns `"!alt"` | Images removed, and links reduced to their text | not executed | Markdown.ImageLeavesAltText, Markdown.ImageDescriptionSample | Markdown.ImagesFirstRemovesImage, Markdown.ImagesFirstKeepsLinkText |
