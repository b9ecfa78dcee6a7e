# Wedding memory board: the upload and listing endpoints and the bulk download

This project models in Dafny the logic behind a small wedding "memory board" web
application. Guests upload photos and voice recordings, and the memories page lists
them and downloads them one by one or all at once. Three pieces are modelled:

- `GET /api/memories` (module `MemoriesApi`) lists the upload directory. It
  classifies every file name by its lower-cased extension as a photo (`.jpg`,
  `.jpeg`, `.png`, `.gif`, `.webp`) or an audio recording (`.mp3`, `.wav`, `.webm`),
  drops every other file, and answers with `{ type, url }` records whose URL is
  `/uploads/<name>`. It answers 405 for any other method and 500 when the directory
  cannot be read.
- `POST /api/upload` (module `UploadApi`) takes the outcome of the multipart parse
  and chooses one response:
  - 405 for any other method;
  - 400 when the `file` field is missing;
  - 413 for the parser's oversized-file error;
  - 500 for any other error;
  - 200 with `/uploads/<basename of the stored path>`.
  When the field holds an array, its first file is used.
- The memories page (module `MemoriesPage`) has three pieces:
  - `getExtension` is the regular expression `\.[a-zA-Z0-9]+$`;
  - a single download is named after the last `/`-segment of the URL, or `download`
    when that segment is empty;
  - the bulk download splits the memories into photos and audio recordings. It
    fetches each one and adds it to a ZIP archive as `foto_<n><ext>` or
    `ses_<n><ext>`. A fetch that fails is skipped without renumbering the items
    after it.

Supporting modules:

- `NodePath` models Node's POSIX `path.basename` and `path.extname`. Trailing
  slashes are ignored. A leading dot is not an extension, and neither is `..`.
- `Text` models ASCII case folding, `split`/`join`, the last segment after a
  separator, and decimal numerals.
- `Seqs` models `map(...).filter(Boolean)`.
- `EndToEnd` holds properties that connect the three pieces.

Inputs that come from the outside world become parameters:

- `MemoriesApi.Listing` is what the directory read returned: the names, or the
  error.
- `UploadApi.ParseOutcome` is what the multipart parser returned: the files per
  form field, or the value it threw.
- The bulk download takes a `seq<bool>` with the outcome of every fetch call, in the
  order the calls are made: photos first, then audio recordings.

The archive is a class, `MemoriesPage.Zip`. Its map from entry name to source URL
stands in for the stored blob. The method `MemoriesPage.DownloadAll` fills it with
the two loops of the page. Its result is proved equal to the function
`MemoriesPage.Plan`, and the lemmas are stated about `Plan`.

## Model

| member | source | states |
|---|---|---|
| MemoriesApi.Handle | src/pages/api/memories.ts:5-33 | Any method other than GET answers 405 "Method Not Allowed", whatever the directory holds, so the listing is never consulted. GET answers 200 with the records of the supported files, or 500 "Failed to retrieve memories" with the read error's message. |
| MemoriesApi.Classify | src/pages/api/memories.ts:19-25 | A lower-cased extension is a photo exactly when it is in the photo list, audio exactly when it is in the audio list, and nothing exactly when it is in neither. The three cases are exclusive, so a kept file has exactly one type. |
| MemoriesApi.KindOf | src/pages/api/memories.ts:16-25 | A file is a photo exactly when its lower-cased `extname` is in the photo list, and audio exactly when it is in the audio list. |
| MemoriesApi.ToMemory | src/pages/api/memories.ts:14-26 | A file yields a record exactly when its extension is supported. The record has that type and the URL `/uploads/` + the unchanged file name. |
| MemoriesApi.Classified | src/pages/api/memories.ts:14-27 | `files.map(...).filter(Boolean)` never has more records than the directory has files. Which records it holds, and in what order, is stated by the `Classified...` lemmas below. |
| MemoriesApi.SupportedExtensionShape | src/pages/api/memories.ts:19-21 | Every supported extension is a dot followed by one or more lower-case letters or digits. |
| MemoriesApi.KeptExtensionShape | src/pages/api/memories.ts:16-25 | A file that is kept has an extension of a dot and one or more ASCII letters or digits, in the file's own case. |
| MemoriesApi.KindIgnoresCase | src/pages/api/memories.ts:16 | Two names that agree after lower-casing get the same type, or are both dropped. |
| MemoriesApi.ClassifiedFromSupported | src/pages/api/memories.ts:14-27 | Every record in the result comes from a file of the listing with a supported extension, and carries that file's type and URL. |
| MemoriesApi.ClassifiedKeepsSupported | src/pages/api/memories.ts:14-27 | Every supported file of the listing has its record in the result. Unsupported files are dropped silently. |
| MemoriesApi.ClassifiedEmpty | src/pages/api/memories.ts:13-29 | The list is empty exactly when no file is supported. In particular, an empty directory gives an empty list. |
| MemoriesApi.ClassifiedAppend | src/pages/api/memories.ts:14-27 | The records of a concatenated listing are the records of each part, in the same order: the listing order is kept. |
| MemoriesApi.ClassifiedOrigin | src/pages/api/memories.ts:14-27 | Record i comes from a supported file at some position k, and exactly i records come from the files before k. |
| Seqs.FilterMap | src/pages/api/memories.ts:14-27 | `map(...).filter(Boolean)` never yields more elements than it was given. |
| Seqs.FilterMapMembers | src/pages/api/memories.ts:14-27 | A value is in the result exactly when some element maps to it. The result is empty exactly when every element maps to nothing. |
| Seqs.FilterMapAppend | src/pages/api/memories.ts:14-27 | Filtering a concatenation gives the concatenation of the filtered parts. |
| Seqs.FilterMapOrigin | src/pages/api/memories.ts:14-27 | Element i of the result is the value of an element at position k, and i results come from before k. |
| NodePath.Basename | src/pages/api/upload.ts:32 | `path.basename` contains no `/` and is no longer than the path. |
| NodePath.BasenameEmpty | src/pages/api/upload.ts:32 | The basename is empty exactly when the path is made of slashes only. |
| NodePath.BasenameOfChild | src/pages/api/upload.ts:18-32 | The basename of `<dir>/<name>` is `name`, for a non-empty name without `/`. |
| NodePath.BasenameOfName | src/pages/api/memories.ts:13-16 | A name without `/` is its own basename. |
| NodePath.SegmentExtension | src/pages/api/memories.ts:16 | The extension of a segment is empty, or it is a proper suffix of the segment that starts with its only dot. |
| NodePath.SegmentExtensionNonEmpty | src/pages/api/memories.ts:16 | A segment has an extension exactly when it is not `..` and a dot follows its first character. |
| NodePath.ExtName | src/pages/api/memories.ts:16 | `path.extname` is empty, or it is a dot followed by text with no other dot and no `/`. |
| NodePath.ExtNameOfName | src/pages/api/memories.ts:13-16 | For a name without `/`, the extension is the segment's extension and a proper suffix of the name. |
| NodePath.ExtNameIsSuffix | src/pages/api/memories.ts:13-16 | For a name without `/`, the extension is a suffix of the name. |
| NodePath.ExtNameLower | src/pages/api/memories.ts:16 | Taking the extension of a lower-cased path gives the lower-cased extension. |
| NodePath.BasenameLower | src/pages/api/memories.ts:16 | Basename commutes with lower-casing. |
| NodePath.SegmentExtensionLower | src/pages/api/memories.ts:16 | A segment's extension commutes with lower-casing. |
| Text.LowerChar | src/pages/api/memories.ts:16 | `toLowerCase` maps `A`-`Z` to `a`-`z` and leaves every other character unchanged. |
| Text.Lower | src/pages/api/memories.ts:16 | Lower-casing keeps the length and lower-cases character by character. |
| Text.LowerCharKeepsClass | src/pages/api/memories.ts:16 | Lower-casing neither creates nor removes a `.`, a `/`, a letter or a digit. |
| Text.LowerSlice | src/pages/api/memories.ts:16 | Lower-casing a slice gives the same slice of the lower-cased text. |
| Text.AfterLast | src/app/memories/page.tsx:27 | The text after the last separator is a suffix without the separator, preceded by the separator unless it is the whole text. |
| Text.AfterLastUnique | src/app/memories/page.tsx:27 | That suffix is the only one with those properties. |
| Text.AfterLastAbsent | src/pages/api/upload.ts:32 | Without the separator, the whole text is returned. |
| Text.AfterLastOfJoin | src/pages/api/upload.ts:32 | After `a + c + b`, with `b` free of `c`, comes `b`. |
| Text.AfterLastLower | src/pages/api/memories.ts:16 | The last `.`- or `/`-segment commutes with lower-casing. |
| Text.LowerOfLastSegment | src/pages/api/memories.ts:16 | Lower-casing keeps the properties that characterise the text after the last `.` or `/`. |
| Text.StripTrailingSlashes | src/pages/api/upload.ts:32 | The result is a prefix of the text, does not end in `/`, and only `/` characters were removed. |
| Text.StripTrailingSlashesLower | src/pages/api/memories.ts:16 | Stripping trailing slashes commutes with lower-casing. |
| Text.Split | src/app/memories/page.tsx:27 | `split` yields at least one piece, and no piece contains the separator. |
| Text.JoinSplit | src/app/memories/page.tsx:27 | Joining the pieces back with the separator gives the original text. |
| Text.SplitAbsent | src/app/memories/page.tsx:27 | Text without the separator splits into itself alone. |
| Text.SplitLastStep | src/app/memories/page.tsx:27 | The last piece of a text relates to the last piece of the text without its first character. |
| Text.SplitSingle | src/app/memories/page.tsx:27 | A text that splits into a single piece is that piece. |
| Text.SplitLastIsSuffix | src/app/memories/page.tsx:27 | The last piece is a suffix, preceded by the separator unless it is the whole text. |
| Text.SplitLast | src/app/memories/page.tsx:27 | `split(c).pop()` is the text after the last `c`. |
| Text.DigitChar | src/app/memories/page.tsx:78 | A digit value below ten becomes a digit character. |
| Text.DigitValue | src/app/memories/page.tsx:78 | A digit character becomes its value below ten, the inverse of `DigitChar`. |
| Text.NatToString | src/app/memories/page.tsx:78 | The decimal numeral of a number is non-empty and made of digits only. |
| Text.ParseNatToString | src/app/memories/page.tsx:78 | Reading the numeral back gives the number. |
| Text.NatToStringInjective | src/app/memories/page.tsx:78 | Different numbers have different numerals. |
| Text.LeadingDigits | src/app/memories/page.tsx:78 | The leading run of digits is a prefix made of digits, followed by a non-digit or by nothing. |
| Text.LeadingDigitsOfJoin | src/app/memories/page.tsx:78 | Digits followed by text that does not start with a digit have exactly those digits as their leading run. |
| UploadApi.FormConfig | src/pages/api/upload.ts:17-21 | Extensions are kept, and the size limit is 5 x 1024 x 1024 = 5242880 bytes, which is 5 MiB. |
| UploadApi.FirstFile | src/pages/api/upload.ts:31 | A single file is taken as is. From an array, the first element is taken, and nothing exactly when the array is empty. |
| UploadApi.Caught | src/pages/api/upload.ts:35-40 | 413 "File size too large (max 5MB)." exactly for an `Error` whose code is the oversized-file code. Otherwise 500 "Something went wrong", with the error's message or the thrown value's text. |
| UploadApi.Handle | src/pages/api/upload.ts:12-41 | The status is one of 200, 400, 405, 413 or 500. 405 "Method Not Allowed" exactly for a method other than POST. 400 "No file uploaded." exactly when the parse has no `file` field. A thrown parse error is answered as the `catch` block answers it, so 413 exactly for the oversized-file error and 500 with the error's message otherwise. An empty `file` array is answered as the `catch` block answers the resulting `TypeError`: 500 with its message. 200 exactly when a first file exists, with "File uploaded successfully" and `/uploads/` + basename of its stored path. |
| UploadApi.WrongMethodIgnoresBody | src/pages/api/upload.ts:13-15 | For any method other than POST, the response is 405 whatever the body would have parsed to. |
| UploadApi.UploadUrlShape | src/pages/api/upload.ts:32-34 | A successful upload's URL starts with `/uploads/` and has no further `/`. |
| UploadApi.OnlyFileFieldMatters | src/pages/api/upload.ts:25-31 | Two parses with the same `file` field get the same response, whatever their other fields. |
| UploadApi.FirstOfArrayDecides | src/pages/api/upload.ts:31 | An array whose first file is f gets the same response as f alone. |
| UploadApi.StoredFileUrl | src/pages/api/upload.ts:18-34 | A file stored as `<dir>/<name>` is answered with 200 and `/uploads/<name>`. |
| MemoriesPage.AlnumSuffix | src/app/memories/page.tsx:99 | The longest suffix of ASCII letters and digits: every character in it is alphanumeric, and the one before it is not. |
| MemoriesPage.GetExtension | src/app/memories/page.tsx:98-101 | The result is empty, or it is a suffix of the URL that starts with a dot. |
| MemoriesPage.GetExtensionIsMatch | src/app/memories/page.tsx:99-100 | A non-empty result is a match of `\.[a-zA-Z0-9]+$`, case kept, and any match is the result. So the result is empty exactly when the regular expression does not match, for example when the URL ends in `/` or `?`. |
| MemoriesPage.MatchAfterAlnumSuffix | src/app/memories/page.tsx:99-100 | For any suffix of letters and digits that cannot be extended, the text chosen from it is the match of the regular expression in both directions. |
| MemoriesPage.GetExtensionOfSuffix | src/app/memories/page.tsx:99-100 | A URL ending in a dot followed by letters or digits has that ending as its extension. |
| MemoriesPage.GetExtensionBehindPrefix | src/app/memories/page.tsx:99-100 | Text put in front of a name does not change the name's extension. |
| MemoriesPage.DownloadName | src/app/memories/page.tsx:27 | The download name is non-empty and contains no `/`. |
| MemoriesPage.DownloadNameIsLastSegment | src/app/memories/page.tsx:27 | The download name is the text after the last `/`, or `download` when that text is empty. |
| MemoriesPage.DownloadNameOfLastPiece | src/app/memories/page.tsx:27 | The download name depends only on the last piece of the split: that piece, or `download` when it is empty. |
| MemoriesPage.DownloadNameAfterSlash | src/app/memories/page.tsx:27 | A name without `/` placed after text ending in `/` downloads as that name. |
| MemoriesPage.DownloadNameOfUpload | src/app/memories/page.tsx:27 | `/uploads/<name>` downloads as `<name>`. |
| MemoriesPage.OfKind | src/app/memories/page.tsx:71-72 | The filter is no longer than its input and holds exactly the memories of the given type. |
| MemoriesPage.PartitionCoversAll | src/app/memories/page.tsx:71-72 | The photo list and the audio list together hold every memory exactly once, as multisets and by count. |
| MemoriesPage.PartitionCount | src/app/memories/page.tsx:71-72 | The photo list and the audio list are together exactly as long as the memories. |
| MemoriesPage.OfKindAppend | src/app/memories/page.tsx:71-72 | The filter keeps the order: filtering a concatenation gives the concatenation of the filters. |
| MemoriesPage.EntryName | src/app/memories/page.tsx:78-86 | The entry name of item i starts with the category's prefix. The digits after the prefix read back as i + 1, and what follows them is the extension of the item's URL. |
| MemoriesPage.EntryNameInjective | src/app/memories/page.tsx:78 | Within a category, different positions give different entry names, whatever the URLs. |
| MemoriesPage.CategoriesDoNotClash | src/app/memories/page.tsx:78-86 | A `foto_` name is never a `ses_` name. |
| MemoriesPage.Successes | src/app/memories/page.tsx:74-88 | The number of successful fetches is at most the number of fetches. |
| MemoriesPage.InsertedKeys | src/app/memories/page.tsx:74-88 | The names in the archive are exactly those of the items whose fetch succeeded. |
| MemoriesPage.InsertedAt | src/app/memories/page.tsx:74-88 | With distinct names, item i is stored under its name when its fetch succeeded, and its name is absent when the fetch failed. |
| MemoriesPage.InsertedSize | src/app/memories/page.tsx:74-88 | With distinct names, the archive holds one entry per successful fetch. |
| MemoriesPage.InsertedStep | src/app/memories/page.tsx:74-88 | One more iteration adds the current item exactly when its fetch succeeded. |
| MemoriesPage.Names | src/app/memories/page.tsx:78-86 | There is one entry name per item. |
| MemoriesPage.Urls | src/app/memories/page.tsx:76-84 | There is one source URL per item. |
| MemoriesPage.NamesDistinct | src/app/memories/page.tsx:78-86 | Numbering by position makes a category's names distinct. |
| MemoriesPage.EntriesAt | src/app/memories/page.tsx:74-88 | Item i of a category is stored under its own numbered name when its fetch succeeded, and that name is absent when it failed. A failure does not shift the numbers of later items. |
| MemoriesPage.EntriesKeys | src/app/memories/page.tsx:74-88 | Every name in a category's entries is the numbered name of an item whose fetch succeeded. |
| MemoriesPage.EntriesKeysHavePrefix | src/app/memories/page.tsx:74-88 | Every name in a category's entries starts with that category's prefix. |
| MemoriesPage.EntriesSize | src/app/memories/page.tsx:74-88 | A category holds exactly as many entries as it had successful fetches. |
| MemoriesPage.SuccessesAppend | src/app/memories/page.tsx:74-88 | The successes of two runs of fetches add up. |
| MemoriesPage.SuccessesSplit | src/app/memories/page.tsx:74-88 | The successes of a run of fetches cut anywhere add up. |
| MemoriesPage.PlanPhoto | src/app/memories/page.tsx:74-80 | Photo i is in the archive as `foto_<i+1><ext>`, with its own URL, exactly when fetch i succeeded. |
| MemoriesPage.PlanAudio | src/app/memories/page.tsx:82-88 | Audio j is in the archive as `ses_<j+1><ext>` exactly when the fetch made after all photo fetches succeeded. |
| MemoriesPage.PhotoEntry | src/app/memories/page.tsx:74-80 | In the union of both categories' entries, photo i is present with its URL exactly when its fetch succeeded. |
| MemoriesPage.AudioEntry | src/app/memories/page.tsx:82-88 | In the union of both categories' entries, audio j is present with its URL exactly when fetch p + j succeeded, where p is the number of photos. |
| MemoriesPage.PrefixesExclusive | src/app/memories/page.tsx:78-86 | No name starts with both `foto_` and `ses_`. |
| MemoriesPage.DisjointUnionSize | src/app/memories/page.tsx:74-88 | Two archives with no common names together hold the sum of their entries. |
| MemoriesPage.CategoriesDisjoint | src/app/memories/page.tsx:74-88 | The photo entries and the audio entries share no name. |
| MemoriesPage.CategoriesSize | src/app/memories/page.tsx:74-88 | The photo and audio entries together number the successes of both categories. |
| MemoriesPage.Plan | src/app/memories/page.tsx:69-88 | The archive the bulk download builds holds only `foto_` and `ses_` names. Its entries are stated by PlanPhoto and PlanAudio, and its size by PlanSize. |
| MemoriesPage.PlanSize | src/app/memories/page.tsx:74-88 | The archive holds one entry per successful fetch, so at most one per memory. |
| MemoriesPage.UnionUpdate | src/app/memories/page.tsx:82-88 | Adding an audio entry after the photo entries adds it to the audio part. |
| MemoriesPage.Zip.constructor | src/app/memories/page.tsx:70 | A new archive is empty. |
| MemoriesPage.Zip.File | src/app/memories/page.tsx:78 | `zip.file(name, blob)` adds or replaces the entry with that name and changes nothing else. |
| MemoriesPage.DownloadAll | src/app/memories/page.tsx:69-88 | The two loops leave the archive equal to the plan: photo entries then audio entries, named by position, and only for fetches that succeeded. |
| EndToEnd.UploadedFileIsListed | src/pages/api/upload.ts:32-34 | A file whose upload answered 200, and which the directory lists with a supported extension, is listed under the URL the upload answered with, with the type of its extension. |
| EndToEnd.ListedDownloadName | src/app/memories/page.tsx:27 | A listed memory downloads under the name of the file it was listed for. |
| EndToEnd.ListedArchiveExtension | src/app/memories/page.tsx:98-101 | The extension the page gives a listed memory's archive entry is the extension the list endpoint classified it by, in its original case. |
| EndToEnd.ExtensionSurvivesPrefix | src/app/memories/page.tsx:98-101 | A name's alphanumeric extension is still the page's extension after `/uploads/`, or any other prefix, is put in front of it. |

## Left out

- The directory read, the multipart parse with its disk write, and every `fetch`
  and `blob()` are I/O. They are parameters of the model, as listed above.
- The parser's numeric error codes are not modelled. Only the distinction
  "oversized-file code or not" is kept.
- The upload directory path (`path.join(process.cwd(), 'public', 'uploads')`) and
  the `bodyParser: false` configuration are not modelled. The stored file's path
  is an input.
- Logging to the console is not modelled.
- Generating the archive, the object URL, the `tum-anilar.zip` anchor and the
  anchor clicks for a single download are browser I/O. They are not modelled.
- A blob is represented by the URL it was fetched from. A fetch counts as
  successful when neither `fetch` nor `blob()` threw. An HTTP error page is still
  added to the archive, as the page does.
- The page's own `GET /api/memories` request, its loading and error state, and
  all rendering are not modelled. Neither are the slider and the other components
  of the application: the memory board, the audio recorder, the audio player, the
  gallery and the Next.js configuration. They are user-interface and device code.
- Text.Lower: models `toLowerCase` on ASCII letters only. Other letters are
  unchanged, whereas the JavaScript function would also fold non-ASCII letters.
  No supported extension contains a non-ASCII character, so this does not change
  which files are kept.
- NodePath.Basename: models the POSIX flavour of Node's `path`. Windows
  separators are not treated as separators.
- MemoriesApi.Handle: the request method is compared as given. The framework's
  own normalisation of the method is not modelled.
- UploadApi.Handle: for an empty array in the `file` field, the reply is the 500
  that the resulting `TypeError` leads to. Its message is the V8 text, a constant
  of the model.
