# A verified model of the morar.dev blog core

The site is a Next.js portfolio and blog. Its posts live in a Payload CMS,
and the CMS stores their bodies as Lexical rich-text trees. This project
models, in Dafny, the code that moves posts from the CMS to the page and
the small scripts and handlers around it:

- **Blog library** (`Blog`, `lib/blog.ts`):
  - the custom Lexical converters for `code`, `banner`, `mediaBlock` and unknown nodes;
  - serialising a post body to HTML, where a throwing converter blanks the document;
  - the plain text, word count, reading time, excerpt and authors of a post;
  - the post queries, after the fetch.
- **CMS addresses** (`Payload`, `lib/payload.ts`): the CMS origin, the API base and the collection URLs.
- **Blog body** (`BlogContent`, `components/blog-content.tsx`):
  - the parsed HTML, whose `pre`/`code` pairs become code blocks;
  - the text and language that are extracted on the way.
- **Code block** (`CodeBlock`, `components/code-block.tsx`):
  - the language normalisation and the `text` fallback;
  - the registered grammars;
  - what reaches the highlighter and the clipboard.
- **MDX components** (`MdxComponents`, `components/mdx-components.tsx`): the text extraction over MDX trees and the `pre` handler.
- **Post schema** (`BlogPostSchema`, `components/blog-post-schema.tsx`): the JSON-LD `BlogPosting` object, with its fallbacks, word count and ISO 8601 reading time.
- **Translate toggle** (`GoogleTranslateToggle`, `components/google-translate-toggle.tsx`):
  - reading a cookie out of a `; `-separated cookie header (section 4.2.1 of RFC 6265);
  - the language decision, the button and the cookie it writes;
  - the guard that keeps the translate script from being added twice.
- **Frontmatter script** (`AddFrontmatter`, `scripts/add-frontmatter.ts`): which documentation pages it touches, the title and description it derives, and the block it prefixes.
- **Revalidation endpoint** (`RevalidateRoute`, `app/api/revalidate/route.ts`): the secret check, the status codes and the ordered invalidations sent to the cache.

The JavaScript string operations the code relies on are written out in
`Strings`: `trim`, `split`, `replace`, `indexOf`, `toLowerCase`, and the
regular expressions `/<[^>]*>/g` and `/\s+/`. `Wrappers` holds `Option`.

Stateful code keeps its imperative form:
- the media converter builds its HTML with `+=`;
- the description scan is a loop with `break`;
- the frontmatter script rewrites a folder of files;
- the toggle writes cookies and page elements of a `Document`;
- the endpoint appends to a `Cache` log.

Each method is proved against a function that specifies it, and the
properties are proved about that function.

A few facts about the code that the model keeps as they are:
- `transformPost` never uses an excerpt stored in the CMS. It always computes one from the text.
- `transformPost` leaves `meta` and `cover` unset, although the schema component reads them.
- No cover image URL is normalised anywhere on the way from the CMS to the page.
- `getLatestPost` sends the posts query with `sort=-publishedAt&limit=1`.
- The code converter marks a code block only by the `language-L` class of its `code` element.

## Model

| member | source | states |
|---|---|---|
| Payload.CmsUrl | lib/payload.ts:1 | The environment's CMS URL when set and non-empty, otherwise `https://cms.morar.dev`; never empty. |
| Payload.ApiBase | lib/payload.ts:2 | The API base is the CMS origin followed by `/api`. |
| Payload.CollectionUrlUnderApi | lib/payload.ts:1-7 | Every collection URL starts with `{origin}/api/` and continues with the collection name. |
| Payload.CollectionUrl | lib/payload.ts:4-7 | The URL starts with `{base}/{collection}`; `?params` is appended exactly when the params are non-empty. |
| Payload.CollectionUrlRoundTrip | lib/payload.ts:4-7 | A server splitting the URL at its first `?` gets back the collection path and the params, when the base has no `?`. |
| Blog.EscapeHtmlIsPerChar | lib/blog.ts:186-191 | The chain of five global replacements, `&` first, equals escaping each character on its own. |
| Blog.EscapeRoundTrip | lib/blog.ts:186-191 | Decoding the five entities gives back the original code exactly. |
| Blog.EscapedIsSafe | lib/blog.ts:186-191 | The escaped code holds no `<`, `>`, `"` or `'`. |
| Blog.CodeBlockHtml | lib/blog.ts:176-194 | Missing or empty code renders nothing. Otherwise the escaped code sits inside `<pre><code class="language-L">`. `L` is the given language; it is `typescript` only when the field is missing, and `null` when the field is JSON `null`. |
| Blog.BannerClasses | lib/blog.ts:198-215 | The classes of the given style. A missing style reads as `info`, and any other style outside the table gets the `info` classes (for names of `Object.prototype` members, see below). |
| Blog.MediaBlockHtml | lib/blog.ts:218-246 | Always one `<div>…</div>`. An `<img>` appears only for a populated media object, and the caption only when it rendered to something. |
| Blog.RenderMediaBlock | lib/blog.ts:226-245 | The `+=` construction yields `MediaBlockHtml`. |
| Blog.QuoteEscapedHasNoQuote | lib/blog.ts:230-233 | The escaped alt text holds no `"`, so it cannot close its attribute. |
| Blog.QuoteEscapeRoundTrip | lib/blog.ts:230-233 | Decoding `&quot;` gives back an alt text that holds no `&`. |
| Blog.RenderNode | lib/blog.ts:176-258 | A code block renders as `CodeBlockHtml`, and a banner without content as `""`. Only a node some converter handles can throw. Backed by `UnknownRendersEmpty`. |
| Blog.RenderNested | lib/blog.ts:158-164 | Content without a `root` gives `""`. Otherwise it succeeds exactly when every child renders, and then gives the children's HTML in the library's container. Backed by `BannerWithoutRoot`. |
| Blog.UnknownRendersEmpty | lib/blog.ts:249-258 | A node that no converter handles renders as `""` and never throws. |
| Blog.RenderNodesAppend | lib/blog.ts:261-264 | Rendering siblings is compositional: the HTML of `a + b` is the HTML of `a` followed by that of `b`, and failure in either part is failure of the whole. |
| Blog.UnknownNodeVanishes | lib/blog.ts:249-258 | Removing an unknown node does not change its siblings' HTML. |
| Blog.SerializeLexicalContent | lib/blog.ts:166-295 | `""` when some child's converter throws; otherwise the children's HTML in the library's container. Backed by `RenderNodesAppend`, `FailingNodeBlanksDocument` and `EmptyDocument`. |
| Blog.FailingNodeBlanksDocument | lib/blog.ts:281-294 | One throwing converter anywhere among the children makes the serialised document `""`. |
| Blog.EmptyDocument | lib/blog.ts:261-264 | A document without children serialises to the library's empty container. |
| Blog.BannerWithoutRoot | lib/blog.ts:158-159 | Banner content without a `root` renders the banner's containers around nothing. |
| Blog.PlainText | lib/blog.ts:301 | The plain text holds no `<` that a later `>` closes. |
| Blog.WordCount | lib/blog.ts:302-304 | The number of maximal runs of non-white-space characters. Backed by `Strings.Words` and `Strings.SplitWsCountsRuns`. |
| Blog.ReadingTime | lib/blog.ts:306 | The least whole number of minutes, and at least one, in which the words can be read at 200 a minute. |
| Blog.ReadingTimeMonotone | lib/blog.ts:306 | More words never take less time. |
| Blog.ReadingTimeExamples | lib/blog.ts:306 | 0 and 200 words take 1 minute, 201 and 400 take 2, and 401 take 3. |
| Blog.ExcerptBody | lib/blog.ts:309 | The excerpt body is at most 200 characters long. |
| Blog.Excerpt | lib/blog.ts:328 | The excerpt is its body, possibly followed by `...`. |
| Blog.ExcerptEllipsis | lib/blog.ts:309-328 | `...` is appended exactly when the text is longer than 200 characters or its first 200 characters hold a white-space run of two or more. |
| Blog.NormalizeAuthors | lib/blog.ts:312-316 | A present `populatedAuthors` wins, even when empty. Otherwise `authors` is used when its first entry is populated. Otherwise there are no authors. |
| Blog.BareIdAuthorsVanish | lib/blog.ts:312-316 | An array of bare IDs yields no authors. |
| Blog.NormalizedAuthorsArePopulated | lib/blog.ts:312-316 | When the raw array is all of one kind, no bare ID survives. |
| Blog.TransformPost | lib/blog.ts:297-330 | Identity fields and timestamps are copied. The content is the serialised body. The authors are `NormalizeAuthors` of the raw fields. The reading time is `ReadingTime` of the word count of the content's plain text, and at least 1. The excerpt is always present and is `Excerpt` of that plain text. |
| Blog.EmptyPost | lib/blog.ts:297-330 | A post without content gets the library's empty container. When that container holds no text, the post gets 1 minute and the empty excerpt. |
| Blog.PostsOf | lib/blog.ts:79-101 | A failed fetch or a non-ok response gives no posts. Otherwise every document is transformed, in order. |
| Blog.FirstPostOf | lib/blog.ts:103-155 | There is a post exactly when the response is ok and non-empty, and then it is the first document, transformed. |
| Blog.GetAllPosts | lib/blog.ts:79-101 | No posts when the fetch of the published-posts URL fails or is not ok; otherwise every document transformed, in order. Backed by `PostsOf`. |
| Blog.GetLatestPost | lib/blog.ts:103-129 | A post exactly when the `limit=1` query answers ok with a document, and then the first one transformed. Backed by `FirstPostOf`. |
| Blog.GetPostBySlug | lib/blog.ts:131-155 | A post exactly when the slug query answers ok with a document, and then the first one transformed. Backed by `FirstPostOf` and `SlugQueryReachesCms`. |
| Blog.GetAllPostSlugs | lib/blog.ts:332-335 | The slugs of all posts, in the same order. |
| Blog.SlugsFollowDocs | lib/blog.ts:332-335 | After a successful fetch, the slugs are the CMS documents' slugs in the CMS's order. |
| Blog.SlugQueryReachesCms | lib/blog.ts:133-136 | The slug reaches the posts collection verbatim, at the start of the query. |
| BlogContent.ExtractAllAppend | components/blog-content.tsx:15 | The text of a node sequence is the text of its parts, in order. |
| BlogContent.ExtractText | components/blog-content.tsx:10-18 | `extractText` reads the text nodes' data in document order; missing data counts as `""`. Backed by `ExtractAllAppend`. |
| BlogContent.FirstLanguageToken | components/blog-content.tsx:22-24 | The index of the first class that starts with `language-`, and none when no class does. |
| BlogContent.GetLanguage | components/blog-content.tsx:20-26 | A missing or empty class gives `text`. Otherwise the result is the first `language-` class with its first `language-` removed, or `text` when there is no such class. |
| BlogContent.GetLanguageOfClassList | components/blog-content.tsx:20-26 | In a blank-separated class list, the first `language-L` class gives `L`. |
| BlogContent.GetLanguageRoundTrip | components/blog-content.tsx:20-26 | The `language-L` class the code converter writes reads back as `L`. |
| BlogContent.CodeChild | components/blog-content.tsx:35-37 | The index of the first child that is a `code` tag, and none when there is no such child. |
| BlogContent.Replacement | components/blog-content.tsx:30-44 | A node is replaced exactly when it is a `pre` tag with a `code` child. The code block then receives that child's language and text. |
| BlogContent.Render | components/blog-content.tsx:29-47 | A node becomes a code block exactly when `Replacement` gives one, and then with that language and code. Any other tag keeps its name and class and has its children rendered by the same rule. Containers, text and leaves are kept as they are, their children rendered alike. A tree without a `pre`/`code` pair renders exactly as parsed. Backed by `Replacement`, `RenderAll` and `NestedCodeBlockRoundTrip`. |
| BlogContent.RenderAll | components/blog-content.tsx:29-47 | Each node of a sequence is rendered on its own, in place: the i-th result is the rendering of the i-th node. |
| BlogContent.CodeBlockRoundTrip | components/blog-content.tsx:30-44 | The HTML the code converter writes renders as a code block with the original code and language, for a language without a blank, `"` or `&`. |
| BlogContent.NestedCodeBlockRoundTrip | components/blog-content.tsx:29-47 | Converted code nested among the children of an element other than `pre` becomes the code block with the original code and language, in place. The element keeps its name and class, and its other children are rendered on their own. |
| BlogContent.NullLanguageIsUnhighlighted | components/blog-content.tsx:20-44 | A code block whose language field is JSON `null` reaches the page as language `null`, which selects no grammar, so the code is shown unhighlighted. |
| CodeBlock.NormalizeLanguage | components/code-block.tsx:34 | The name is lower-cased, and then one leading `language-` is dropped. |
| CodeBlock.HighlighterLanguage | components/code-block.tsx:57 | The normalised name, or `text` when that is empty; never empty. |
| CodeBlock.NormalizePrefixed | components/code-block.tsx:34 | `language-L`, with the prefix in any case, gives `L` in lower case. |
| CodeBlock.NormalizeKeepsPlainName | components/code-block.tsx:34 | A lower-case name without the prefix passes unchanged. |
| CodeBlock.NormalizeRemovesOnce | components/code-block.tsx:34 | Only one leading `language-` is removed. |
| CodeBlock.GrammarOf | components/code-block.tsx:17-57 | A grammar exactly when the normalised name is registered, and then the registered one. Any other name, `text` included, is rendered without highlighting. |
| CodeBlock.GrammarOfExamples | components/code-block.tsx:17-57 | `""`, `text`, `language-text` and `python` select no grammar. `Shell` and `language-bash` both select bash, and `language-TSX` selects tsx. |
| CodeBlock.NullIsUnregistered | components/code-block.tsx:17-57 | The name `null` selects no grammar. |
| CodeBlock.Render | components/code-block.tsx:38-57 | The code reaches the highlighter and the clipboard unchanged, with a non-empty language. |
| MdxComponents.ExtractAllAppend | components/mdx-components.tsx:9 | The text of an array is the text of its halves, in order. |
| MdxComponents.ExtractTextWrapping | components/mdx-components.tsx:9-13 | Wrapping in an element or in a one-element array does not change the text. |
| MdxComponents.ExtractText | components/mdx-components.tsx:6-18 | `extractText` reads the strings, numbers and `value` fields in document order, and drops everything else. Backed by `ExtractAllAppend` and `ExtractTextWrapping`. |
| MdxComponents.ChildClass | components/mdx-components.tsx:25 | The child element's class, or `""` when there is none. |
| MdxComponents.PreLanguage | components/mdx-components.tsx:26 | Never empty. A class without `language-` passes unchanged. Otherwise it is the class with its first `language-` removed, or `text` when that leaves nothing. |
| MdxComponents.Pre | components/mdx-components.tsx:22-29 | The code is the text of the inner element's children, and the language comes from its class. |
| MdxComponents.PreLanguageOfPrefixed | components/mdx-components.tsx:26 | `language-L` gives `L`, or `text` when `L` is empty. |
| MdxComponents.PreAgreesWithBlogContent | components/mdx-components.tsx:22-29 | For a single `language-L` class, the MDX handler and the blog body pick the same highlighter language. |
| MdxComponents.PreKeepsOtherClasses | components/mdx-components.tsx:26 | For `a language-L`, the MDX handler gives `a L` where the blog body gives `L`. |
| BlogPostSchema.OrElse | components/blog-post-schema.tsx:9-10 | `a || b`: the value when it is present and non-empty, otherwise the fallback. |
| BlogPostSchema.Description | components/blog-post-schema.tsx:10 | The meta description when non-empty, otherwise the excerpt. |
| BlogPostSchema.AuthorName | components/blog-post-schema.tsx:19 | The first author's name when it is populated and non-empty, otherwise `Dmytro Morar`. |
| BlogPostSchema.Image | components/blog-post-schema.tsx:23 | There is an image exactly when the cover has a non-empty URL, and then it is the CMS URL followed by that URL. |
| BlogPostSchema.TimeRequired | components/blog-post-schema.tsx:34 | `PT…M`. |
| BlogPostSchema.TimeRequiredRoundTrip | components/blog-post-schema.tsx:34 | The ISO 8601 duration reads back as the reading time. |
| BlogPostSchema.BuildSchema | components/blog-post-schema.tsx:12-35 | Every field of the schema with its fallback. The page id is the post URL. The word count is at least 1. The duration decodes to the reading time. |
| BlogPostSchema.SchemaWordCountVersusWordCount | components/blog-post-schema.tsx:33 | The schema's word count equals the reading-time word count on non-empty text, and is 1 against 0 on empty text. |
| BlogPostSchema.SchemaOfTransformedPost | components/blog-post-schema.tsx:9-34 | For a transformed post, the headline is the title, there is no image, and the word count gives back the reading time. |
| GoogleTranslateToggle.ValueAfterLastKey | components/google-translate-toggle.tsx:25-27 | There is no value exactly when `; name=` does not occur. A value holds no `;`. |
| GoogleTranslateToggle.GetCookie | components/google-translate-toggle.tsx:22-28 | With no document, the result is `null`. Otherwise it is `null` exactly when `; name=` does not occur in `; ` + the cookie header. A value holds no `;`. |
| GoogleTranslateToggle.GetCookieFindsLastPair | components/google-translate-toggle.tsx:22-28 | On a header of well-formed pairs, the value is that of the last pair with the name, and `null` when no pair has the name. |
| GoogleTranslateToggle.SplitSegments | components/google-translate-toggle.tsx:25-27 | Splitting at `; name=` gives at least two pieces exactly when a pair has the name, and the last piece is then the last such value, followed by nothing or by `;`. |
| GoogleTranslateToggle.SuffixNameDoesNotMatch | components/google-translate-toggle.tsx:24-25 | `xgoogtrans=…` is not read as `googtrans`. |
| GoogleTranslateToggle.IsUkrainian | components/google-translate-toggle.tsx:58-62 | `false` before mounting. After mounting, it fails exactly when decoding throws; otherwise the decoded lower-case value contains `/uk`. |
| GoogleTranslateToggle.MissingCookieIsEnglish | components/google-translate-toggle.tsx:60-61 | A missing cookie reads as English. |
| GoogleTranslateToggle.NextCookieValue | components/google-translate-toggle.tsx:94 | A click writes `/en/en` from Ukrainian and `/en/uk` otherwise. |
| GoogleTranslateToggle.Label | components/google-translate-toggle.tsx:99 | `EN` exactly when the page is Ukrainian, `UA` exactly when it is not. |
| GoogleTranslateToggle.AriaLabel | components/google-translate-toggle.tsx:97 | The accessible name names the language a click switches to, in both directions, and says English exactly when the button text is `EN`. |
| GoogleTranslateToggle.ToggleFlips | components/google-translate-toggle.tsx:58-62 | After a click writes its value as the last `googtrans` pair, the page reads back as the other language. |
| GoogleTranslateToggle.Document.SetGoogTransCookie | components/google-translate-toggle.tsx:30-38 | Two cookie writes with the same raw value; the second adds the host's domain. The page elements are unchanged. |
| GoogleTranslateToggle.Document.EnsureGoogleTranslateScript | components/google-translate-toggle.tsx:40-49 | The script is appended only when no element has its id. Afterwards the id is present, and it is held by exactly one element when the call added it. |
| GoogleTranslateToggle.MountTwice | components/google-translate-toggle.tsx:80-81 | Two calls, as under strict mode, leave exactly one script element. |
| AddFrontmatter.StripExtension | scripts/add-frontmatter.ts:18 | For `name.mdx` with no `.mdx` inside the name, removing the first `.mdx` gives back the name. |
| AddFrontmatter.HyphensToSpaces | scripts/add-frontmatter.ts:19 | Every `-` becomes a blank, and every other character stays in place. |
| AddFrontmatter.VsDotRoundTrip | scripts/add-frontmatter.ts:20 | `vs` → `vs.` loses no information: reading `vs.` back as `vs` restores the text. |
| AddFrontmatter.Title | scripts/add-frontmatter.ts:17-20 | No title holds a hyphen. With `vs.` read back as `vs`, the title is the file name without its first `.mdx`, hyphens as blanks. Backed by `HyphensToSpaces` and `VsDotRoundTrip`. |
| AddFrontmatter.TitleOfFileName | scripts/add-frontmatter.ts:17-20 | The title of `name.mdx`, with `vs.` undone, is the name with its hyphens as blanks. |
| AddFrontmatter.LineDescription | scripts/add-frontmatter.ts:27-35 | A line qualifies exactly when, trimmed, it is non-blank and not a heading. A quotation loses its `>` and the white space after it. The result is cut to 160 characters. |
| AddFrontmatter.DescriptionAtFirstQualifying | scripts/add-frontmatter.ts:26-36 | The description comes from the first qualifying line, whatever follows. |
| AddFrontmatter.DescriptionWithoutQualifying | scripts/add-frontmatter.ts:26-36 | Without a qualifying line, the description is empty. |
| AddFrontmatter.DescriptionOf | scripts/add-frontmatter.ts:26-36 | No description is longer than 160 characters, and a non-empty one is what some line yields. Backed by `DescriptionAtFirstQualifying` and `DescriptionWithoutQualifying`. |
| AddFrontmatter.BareQuoteEndsScan | scripts/add-frontmatter.ts:28-31 | A bare `>` line ends the scan with an empty description, even when later lines would qualify. |
| AddFrontmatter.ExtractDescription | scripts/add-frontmatter.ts:23-36 | The scan with `break` computes `DescriptionOf` of the lines. |
| AddFrontmatter.FullDescription | scripts/add-frontmatter.ts:38-40 | Never empty; `Documentation for <title>` exactly when the scan found nothing. |
| AddFrontmatter.Frontmatter | scripts/add-frontmatter.ts:42-47 | The block opens with the `---` fence. |
| AddFrontmatter.FrontmatterLines | scripts/add-frontmatter.ts:42-47 | When neither value holds a line break, the block's lines are the fence, `title: "T"`, `description: "D"`, the fence and a blank line. |
| AddFrontmatter.Processed | scripts/add-frontmatter.ts:8-49 | Ineligible files and files that already have frontmatter are unchanged. Any other file becomes exactly the frontmatter block followed by its unchanged content. |
| AddFrontmatter.ProcessedIdempotent | scripts/add-frontmatter.ts:14 | A processed file has frontmatter, so processing it again changes nothing. |
| AddFrontmatter.RunAllAt | scripts/add-frontmatter.ts:5-51 | After a run, every listed file is processed once and every other file is untouched. |
| AddFrontmatter.RunTwice | scripts/add-frontmatter.ts:5-51 | A second run of the script changes nothing. |
| AddFrontmatter.ProcessFile | scripts/add-frontmatter.ts:7-49 | A file is skipped exactly when it is ineligible or has frontmatter. Otherwise the content written is `Processed`. |
| AddFrontmatter.DocsFolder.AddFrontmatter | scripts/add-frontmatter.ts:5-51 | The loop over the listing leaves the folder as `RunAll` of the listing. |
| RevalidateRoute.OrNull | app/api/revalidate/route.ts:60-61 | `v || null`: the value exactly when it is truthy. |
| RevalidateRoute.Respond | app/api/revalidate/route.ts:10-67 | Success exactly for a readable body with the configured secret. A failure is 500 or 401, and 401 exactly for a readable body with a wrong token while a secret is configured. |
| RevalidateRoute.Planned | app/api/revalidate/route.ts:33-55 | Invalidations only for an authorized request, at most five, and for the posts collection they end with `/blog` then `posts`. Backed by `PathsRevalidated`, `TagsRevalidated` and `PostsCollectionOrder`. |
| RevalidateRoute.SuccessIffAuthorized | app/api/revalidate/route.ts:10-67 | The response succeeds exactly for a readable body with the configured secret. Otherwise nothing is revalidated. |
| RevalidateRoute.UnreadableBody | app/api/revalidate/route.ts:63-66 | A body that cannot be read gives 500 `Error revalidating`, and nothing is revalidated. |
| RevalidateRoute.NotConfiguredBeforeToken | app/api/revalidate/route.ts:16-23 | An unset or empty server secret gives 500 `Revalidation not configured` whatever the token, and nothing is revalidated. |
| RevalidateRoute.WrongTokenIsRejected | app/api/revalidate/route.ts:25-31 | A token mismatch gives 401, and nothing is revalidated. |
| RevalidateRoute.SuccessEchoes | app/api/revalidate/route.ts:57-62 | A success echoes the clock, a truthy path and a truthy tag, with `null` for falsy ones. |
| RevalidateRoute.PathsRevalidated | app/api/revalidate/route.ts:34-55 | The paths revalidated are exactly a truthy path and, for the posts collection, `/blog`. |
| RevalidateRoute.TagsRevalidated | app/api/revalidate/route.ts:39-55 | The tags revalidated are exactly a truthy tag and, for the posts collection, `posts`. |
| RevalidateRoute.PostsCollectionOrder | app/api/revalidate/route.ts:33-55 | The order and number of invalidations: path, tag, then for posts the path again, `/blog` and `posts`. |
| RevalidateRoute.Post | app/api/revalidate/route.ts:10-67 | The handler appends exactly the planned invalidations to the cache log and returns the planned response. |
| Strings.StrippedHasNoTag | lib/blog.ts:301 | After `/<[^>]*>/g` → blank, no `<` has a later `>`. |
| Strings.SplitWsOfTrimmed | lib/blog.ts:302-304 | On trimmed, non-empty text, splitting at white-space runs gives only non-empty pieces. |
| Strings.Words | lib/blog.ts:302-304 | No word is empty or holds white space, and there are as many words as runs of non-white-space characters. |
| Strings.SplitWsCountsRuns | lib/blog.ts:302-304 | The non-empty pieces of a white-space split are as many as the runs of non-white-space characters. |
| Strings.CollapseShortens | lib/blog.ts:309 | Collapsing white-space runs shortens the text exactly when it holds a run of two or more. |
| Strings.SplitJoinRoundTrip | components/blog-content.tsx:22-23 | Splitting blank-joined tokens that hold no blank gives the tokens back. |

## Left out

- **I/O and the network:**
  - `fetch`, `response.json()` and the `revalidate: 3600` caching hints: the fetch is a parameter returning a failure or a response.
  - The file system calls of the frontmatter script: the folder is a map from name to content, and the directory listing is a parameter.
  - The `✓` console output of the frontmatter script, and all other `console.*` logging and `NODE_ENV` branches, which affect no result.
- **Foreign code:**
  - The Lexical library's own converters: they are a `Library` value, with their output as an uninterpreted function of the node and its children's HTML.
  - The HTML parser: the parsed tree is the input.
  - `decodeURIComponent`: it is a parameter that may fail (`None`).
  - React rendering, `useState`/`useEffect` scheduling, and `window.location.reload`: the mounted flag is a parameter.
  - The Google widget callback `googleTranslateElementInit`.
  - `revalidatePath` and `revalidateTag`: they are recorded in a log. A throw from inside them, after earlier invalidations, is not modelled.
- **JavaScript values the model does not represent:**
  - Only ASCII letters are lower-cased; other Unicode case mappings are not modelled.
  - `Date.now()`: the clock reading is a parameter of the endpoint.
  - The endpoint's body fields: non-string JSON values (numbers, objects) are not represented. Each field is a string, or absent, or `null`.
  - A body that parses to `null` is treated like an unreadable one, since destructuring it throws.
  - JSON string escaping of the schema object by `JSON.stringify`.
- **Rendering details:** the fixed markup of the other MDX overrides (`blockquote`, headings, tables, links) only wraps children in constant classes.
- AddFrontmatter.Frontmatter: titles and descriptions are inserted between `"` without escaping. A `"` in either produces a block that YAML reads differently, so `FrontmatterLines` gives back the lines and not the YAML values.
- Blog.BannerClasses: the table lookup is on a plain JavaScript object. A style that names an inherited `Object.prototype` member (`constructor`, `toString`, …) yields that member's string form, for example `function Object() { [native code] }`. The model gives such a style the `info` classes.
- Blog.SerializeLexicalContent: the container that `convertLexicalToHTML` puts around a document is a `Library` parameter, since the library's code is not part of this model. It is applied to the post body and to nested banner and caption content that has a root.
- JavaScript's `length` and `substring` count UTF-16 code units, while a Dafny `string` counts Unicode scalar values. For text outside the Basic Multilingual Plane (emoji, for instance) the cuts differ, and the source may split a surrogate pair. The four members below are stated in scalar values.
- Blog.ExcerptBody: the 200-character cut counts scalar values, not UTF-16 code units.
- Blog.ExcerptEllipsis: the length comparison that decides `...` counts scalar values, not UTF-16 code units.
- AddFrontmatter.LineDescription: the 160-character cut counts scalar values, not UTF-16 code units.
- AddFrontmatter.DescriptionOf: the 160-character bound counts scalar values, not UTF-16 code units.
- BlogContent.CodeBlockRoundTrip: the code converter writes the language into the `class` attribute without escaping, so a language holding `"` or `&` does not parse back to itself; the round trip is promised only for languages without them.
