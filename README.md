# Readable content extractor, modelled in Dafny

This project models the article extractor `ReadableContentExtractor` and the
helper `FastNodeUtils.removeChildren`. The extractor takes a parsed HTML
DOM. It reads the og:title, the description meta and og:image. It scores
the `div`/`article` parents and grandparents of every paragraph and of the
first non-blank text of every div, then picks the highest scoring element
as the main content. It sanitizes that element:

- removes junk tags;
- removes divs that look like advertising;
- removes spans and breaks;
- drops small images and makes image URLs absolute;
- strips attributes;
- removes headings that repeat the title and a paragraph that repeats the
  description.

Finally it assembles an article `div` from an `h1.title`, an optional
`p.intro`, an optional `div#mainImage` and the main content.

The DOM is an arena (`Dom.Tree`): a map from node ids to records holding
kind (document, element, text, comment), tag, attribute list, data,
children and parent. `Dom.Document` is the mutable document object. Its
methods (`CreateElement`, `AppendChild`, `RemoveFromParent`,
`SetAttribute`, `RemoveAttribute`, `SetText`) reassign the tree, and each is
proved to keep it well formed: ids below `next`, children pointing back to
their parent, no repeated child, parents listing their children, and unique
attribute names. NodeLists and NamedNodeMaps are *live*, as in section
1.1.1 of the W3C DOM Level 3 Core specification. Every index loop of the
source is therefore written as a loop that re-evaluates the list on the
current tree at each index, and the skipped entries this causes are kept.

Module layout:

- `Chars`: the character classes (`Character.isWhitespace`, NBSP, `trim`),
  ASCII lower-casing for the case-insensitive patterns, and
  `equalsIgnoreCase`;
- `Patterns`: the five regular expressions, written as substring and
  prefix predicates, and the image-size parse;
- `Dom`, `Queries`, `Frames`: the tree, the read-only queries
  (getElementsByTagName, textLength, getFirstLevelTextContent,
  hasVisibleChar, findComment, findTextNodes, getWholeText) and the
  relations between a tree before and after a pass;
- `Metadata`: getTitle, getDescription and getMainImage;
- `Scoring`: candidate collection, scoreByMatchClassId, scoreElements and
  the selection of the top element;
- `Live`, `Wrap`, `Sanitize`, `Duplicates`: the facts behind the
  sanitizer passes;
- `TextAppender`: the whitespace-collapsing buffer, a class with a proved
  invariant;
- `Images`: the URL collection of getMainImages;
- `Extractor`: the class `ReadableContentExtractor`, with its fields `doc`,
  `mainContent` and `imageBeforeText`, and one method per pass;
- `FastNodeUtils`: `removeChildren`.

URI resolution (`URI.create(base).resolve(s).toString()`) is the function
parameter `resolve(base, s)` of the extractor.

## Model

A loose element is a detached element other than an img whose children are all text nodes, such as the h1 extract creates; "untouched" means its node is the same and its children keep their kind and text.

| member | source | states |
|---|---|---|
| Extractor.ReadableContentExtractor.constructor | src/main/java/br/readable/extractor/ReadableContentExtractor.java:30-32 | the extractor holds the given document, has no main content and imageBeforeText is false |
| Extractor.ReadableContentExtractor.Reset | src/main/java/br/readable/extractor/ReadableContentExtractor.java:34-38 | the document is replaced, mainContent becomes null and imageBeforeText false |
| Extractor.ReadableContentExtractor.Extract | src/main/java/br/readable/extractor/ReadableContentExtractor.java:40-78 | on success the result is a new element with exactly these children, in order: an h1 with class title whose direct text is the page title (empty without one); then a p.intro whose direct text is the page description, when there is one; then, when the figure is shown, a div#mainImage holding one img whose src is the og:image; then the main content. The image is shown exactly when there is an og:image, the main content holds no figure element and no image came before the text. The main content is what getMainContent chose on the page as extract handed it over (ContentChosen): an old node with the largest score, or the fresh fallback p exactly when nothing was scored. The only failure is a NullPointerException: that of killDivs inside getMainContent, or that of a null main content when there is no body. The appends never raise HIERARCHY_REQUEST_ERR: the article is a fresh empty div, so it is neither the fallback p created later nor a scored node, and every scored node has a child |
| Extractor.ReadableContentExtractor.Assemble | src/main/java/br/readable/extractor/ReadableContentExtractor.java:59-76 | the appends of extract: the heads, then the main content last, for the given title, description and image URL. The image is shown exactly when there is an image URL, the main content holds no figure and no image came before the text. An article that starts empty ends with exactly the heads and the main content. A null main content is a NullPointerException, and the only other failure is the HIERARCHY_REQUEST_ERR of appending the article into itself |
| Extractor.ReadableContentExtractor.AttachHeadings | src/main/java/br/readable/extractor/ReadableContentExtractor.java:59-65 | the h1 and then the intro (with a description) are appended to the root, which then ends with exactly those heads; a root that started empty holds nothing else |
| Extractor.ReadableContentExtractor.AppendHead | src/main/java/br/readable/extractor/ReadableContentExtractor.java:59 | appending a head moves it to the end of the root's children, taking it out of wherever it was, and keeps the heads already placed |
| Extractor.ReadableContentExtractor.AttachImageIf | src/main/java/br/readable/extractor/ReadableContentExtractor.java:67-74 | the image wrapper is appended exactly when an og:image was found, the main content holds no figure element and no image came before the text; the heads then record that image |
| Extractor.ReadableContentExtractor.MakeIntro | src/main/java/br/readable/extractor/ReadableContentExtractor.java:61-63 | a fresh p with class intro whose first-level text is the description, not attached to the root |
| Extractor.ReadableContentExtractor.MakeWrapper | src/main/java/br/readable/extractor/ReadableContentExtractor.java:68-72 | a fresh div with id mainImage whose only child is a fresh img whose src is the URL; no old node's children change |
| Extractor.ReadableContentExtractor.MakeImage | src/main/java/br/readable/extractor/ReadableContentExtractor.java:68-72 | the wrapper is fresh, the root's children are unchanged and the heads now end with the image wrapper |
| Extractor.ReadableContentExtractor.NewElement | src/main/java/br/readable/extractor/ReadableContentExtractor.java:61-62 | createElement then setAttribute: a fresh parentless, childless element of the tag holding the attribute value; every old node's children are unchanged |
| Extractor.ReadableContentExtractor.MakeTitle | src/main/java/br/readable/extractor/ReadableContentExtractor.java:43-48 | creates a fresh detached h1 whose class is title and whose only children are text nodes spelling the title (none for a null title); no existing node changes kind, tag, attributes or text, and every detached old node stays detached with the same children |
| Extractor.ReadableContentExtractor.MakeFrame | src/main/java/br/readable/extractor/ReadableContentExtractor.java:42-48 | the article is a fresh, detached, childless div and the h1 is a fresh detached element holding the title as MakeTitle states; existing nodes keep kind, tag, attributes and text |
| Extractor.SetTextContentOutside | src/main/java/br/readable/extractor/ReadableContentExtractor.java:48 | setTextContent on a detached element leaves it detached and every other detached node with its child list |
| Extractor.UntouchedTitled | src/main/java/br/readable/extractor/ReadableContentExtractor.java:43-48 | an untouched detached h1 keeps its class title and its text |
| Extractor.ReadableContentExtractor.AttachIntro | src/main/java/br/readable/extractor/ReadableContentExtractor.java:60-65 | the root's children still end with the heads, which now also hold, for a description, a p whose class is intro and whose direct text is the description |
| Extractor.ReadableContentExtractor.AttachImage | src/main/java/br/readable/extractor/ReadableContentExtractor.java:68-73 | the root's children end with a fresh div whose id is mainImage and which holds exactly one img whose src is the URL |
| Extractor.ReadableContentExtractor.AttachContent | src/main/java/br/readable/extractor/ReadableContentExtractor.java:76 | the main content is moved to be the root's last child; the heads stay right before it, and a root that held only the heads then has exactly one more child than there are heads |
| Extractor.ReadableContentExtractor.GetMainContent | src/main/java/br/readable/extractor/ReadableContentExtractor.java:107-208 | with no body, null is returned and the tree is unchanged. With a body, the result is never null. On the rewrapped page the body's scored candidates form a map m; an existing result is in m with the largest score, and a fresh result comes exactly when m is empty: it is then a detached p whose direct text is the fallback sentence, added without changing any child list. A returned element is a div or article (ignoring case) or that p. Every existing node keeps its kind and tag, and every loose element outside the candidates keeps its node and its text children. The only failure is the NullPointerException of killDivs |
| Extractor.ReadableContentExtractor.SelectAndFinish | src/main/java/br/readable/extractor/ReadableContentExtractor.java:119-205 | on the rewrapped page with score map m, the result is never null: a fresh p with the fallback text exactly when m is empty, added without changing any child list; otherwise the top element, which is in m with the largest score and existed before the rewrapping. Every loose element other than the result keeps its node and its text children. The only failure is the NullPointerException of killDivs |
| Extractor.ReadableContentExtractor.ContentBeside | src/main/java/br/readable/extractor/ReadableContentExtractor.java:43-57 | the h1 that extract sets up before calling getMainContent keeps its class and its text through it, since it is neither a body nor a candidate. The selection facts of getMainContent (ContentChosen) hold on the page extract handed over, and the empty article div is never the result and is still empty afterwards |
| Extractor.EmptyRootNotChosen | src/main/java/br/readable/extractor/ReadableContentExtractor.java:40-78 | under the selection facts of getMainContent, a detached old element without children, such as the empty article div, is never the chosen node, so the final append cannot put the article into itself |
| Extractor.ReadableContentExtractor.FallbackParagraph | src/main/java/br/readable/extractor/ReadableContentExtractor.java:149-152 | a fresh p whose first-level text is the fallback message; every old node keeps its kind, tag, attributes, text and child list, and every loose element is untouched |
| Extractor.ReadableContentExtractor.FinishTop | src/main/java/br/readable/extractor/ReadableContentExtractor.java:155-205 | the sanitizer and duplicate passes on the top element keep every node's kind and tag, leave every loose element other than the top untouched, and leave the document object in place |
| Extractor.ReadableContentExtractor.GetMainImages | src/main/java/br/readable/extractor/ReadableContentExtractor.java:224-245 | a number below 1 is an IllegalArgumentException and changes nothing. Otherwise the result is exactly the Gather of the resolved src of every img under the main content, in document order. It holds no URL twice and at most number URLs. When a main content existed, the tree is untouched; when there was none, the one getMainContent computes is chosen as ContentChosen says |
| Extractor.ReadableContentExtractor.CollectUrls | src/main/java/br/readable/extractor/ReadableContentExtractor.java:235-242 | the loop computes Gather over the resolved src of each img; the result has no repeats and never exceeds the limit |
| Extractor.ReadableContentExtractor.KillBrWrapPattern | src/main/java/br/readable/extractor/ReadableContentExtractor.java:337-369 | only fresh p elements are created and no existing node changes kind, tag, attributes or text. When the recursion into the children is not taken (fuel 0), an element without a direct br child keeps its tree, and an element with one is Wrapped: the surviving brs first, then one fresh p per run of non-br children, holding exactly that run |
| Extractor.ReadableContentExtractor.KillBrStep | src/main/java/br/readable/extractor/ReadableContentExtractor.java:346-353 | one round of the first loop: hasBr is the br test over the children seen so far, and only p elements are created |
| Extractor.ReadableContentExtractor.KillBrChild | src/main/java/br/readable/extractor/ReadableContentExtractor.java:347-352 | the child is reported as a br exactly when it is a br element; a br, a non-element or an exhausted fuel leaves the tree unchanged |
| Extractor.ReadableContentExtractor.WrapBrChildren | src/main/java/br/readable/extractor/ReadableContentExtractor.java:355-368 | removeChildren, then the walk over the snapshot of the children, leaves the element Wrapped |
| Extractor.ReadableContentExtractor.WrapChild | src/main/java/br/readable/extractor/ReadableContentExtractor.java:360-367 | one round of the wrapping loop keeps the walk invariant relating the paragraphs made so far to the groups of non-br children |
| Extractor.ReadableContentExtractor.OpenParagraph | src/main/java/br/readable/extractor/ReadableContentExtractor.java:366 | the current paragraph, or a fresh p appended to the element when there is none, becomes the last paragraph of the walk |
| Extractor.ReadableContentExtractor.MoveChild | src/main/java/br/readable/extractor/ReadableContentExtractor.java:367 | appending the child to the current paragraph puts it at the end of the last group and keeps the set of nodes |
| Extractor.ReadableContentExtractor.RemoveChildrenLive | src/main/java/br/readable/extractor/ReadableContentExtractor.java:638-644 | exactly the children at even original positions are detached; the node keeps the odd-position ones in order |
| Extractor.ReadableContentExtractor.KillCodeSpansAndBreaks | src/main/java/br/readable/extractor/ReadableContentExtractor.java:371-417 | only text nodes are created and no existing node changes kind, tag, attributes or text. When the recursion is not taken (fuel 0), SpansKilled gives the element's children exactly: the odd-position children left by the live removeChildren, less those moved, then a fresh text node and the child for each element child other than br, span, p and div, then at most one last fresh text node; the removed even-position children that are not put back have no parent; every other node keeps its children; the result is whether the last child put back has children or the last text has a visible character |
| Extractor.ReadableContentExtractor.SpanWalk | src/main/java/br/readable/extractor/ReadableContentExtractor.java:385-410 | only text nodes are created and the collector invariant is kept; when the recursion is not taken, the loop over the snapshot ends in the walk state after every child: for each child put back, a text node then the child at the end of the element; the even-position children not put back detached; every other node's children unchanged |
| Extractor.ReadableContentExtractor.SpanElement | src/main/java/br/readable/extractor/ReadableContentExtractor.java:387-404 | an element child keeps the frame (only text nodes created); when the recursion is not taken the walk state advances by one child: br and span are dropped, a p or div adds a " " to the collector and leaves the tree, any other element is put back after a text node |
| Extractor.ReadableContentExtractor.SpanMoveBack | src/main/java/br/readable/extractor/ReadableContentExtractor.java:402-405 | the collector is reset and hasChild becomes whether the child has children; when the recursion is not taken, a fresh text node and then the child are the element's last two children and the walk state advances by one child |
| Extractor.ReadableContentExtractor.SpanFinish | src/main/java/br/readable/extractor/ReadableContentExtractor.java:412-414 | at most one last text node is appended; when the recursion is not taken, the walk state after every child plus that node is SpansKilled, with hasChild or-ed with whether the node's text has a visible character |
| Spans.OddBreaksStay | src/main/java/br/readable/extractor/ReadableContentExtractor.java:169-170 | contrary to the comments, a br or span child at an odd position is still a child of the element after the pass |
| Spans.EvenBreaksGone | src/main/java/br/readable/extractor/ReadableContentExtractor.java:389-390 | a br or span child at an even position is no longer a child of the element |
| Spans.MovedMembers | src/main/java/br/readable/extractor/ReadableContentExtractor.java:389-404 | the children put back are exactly the element children other than br, span, p and div |
| Spans.DropMembers | src/main/java/br/readable/extractor/ReadableContentExtractor.java:403-404 | the odd-position children left in place are those not moved to the end |
| Spans.DropSnoc | src/main/java/br/readable/extractor/ReadableContentExtractor.java:404 | appending a child already in the list takes it out of the part left in place |
| Spans.PairsMembers | src/main/java/br/readable/extractor/ReadableContentExtractor.java:402-404 | the appended part holds exactly the new text nodes and the children put back |
| Spans.SpanDone | src/main/java/br/readable/extractor/ReadableContentExtractor.java:410-414 | the walk state after every child, plus the optional last text node, is the result stated by SpansKilled |
| Extractor.ReadableContentExtractor.SpanChild | src/main/java/br/readable/extractor/ReadableContentExtractor.java:387-409 | one child of the loop keeps the frame and the collector invariant; when the recursion is not taken, the walk state advances by one child: an element as SpanElement says, any other child leaving the tree unchanged |
| Extractor.ReadableContentExtractor.AppendTextNode | src/main/java/br/readable/extractor/ReadableContentExtractor.java:402 | a fresh text node holding exactly the given text becomes the element's new last child; every other node keeps its children, parent and kind |
| Extractor.ReadableContentExtractor.AppendBack | src/main/java/br/readable/extractor/ReadableContentExtractor.java:404 | the tree becomes the Append of the child to the element: the child moves to the end of the element's children |
| Extractor.ReadableContentExtractor.KillDivs | src/main/java/br/readable/extractor/ReadableContentExtractor.java:419-455 | the tree and the fault flag are exactly LiveKillDivs from index 0: the rounds of KillDivEffect on the live div list, re-read at every index, ending at the first fault. Besides, only div elements lose their parent, nothing else changes but child lists, the first div goes when either rule fires, and every loose element keeps its node and its text children |
| Extractor.ReadableContentExtractor.KillDivStep | src/main/java/br/readable/extractor/ReadableContentExtractor.java:424-454 | one round on the i-th entry of the live div list has exactly the KillDivEffect of that entry, removes only divs of the original tree and never lengthens the live list |
| Extractor.ReadableContentExtractor.KillDiv | src/main/java/br/readable/extractor/ReadableContentExtractor.java:425-453 | the tree and the fault flag are exactly KillDivEffect: the first rule detaches the div, the second rule is read again on the tree the first left and detaches it or, when the div has no parent any more, is the fault |
| Extractor.ReadableContentExtractor.RemoveDiv | src/main/java/br/readable/extractor/ReadableContentExtractor.java:444 | removeChild: the tree becomes Detach of the div, which keeps its attributes and has no parent |
| Extractor.ReadableContentExtractor.Clean | src/main/java/br/readable/extractor/ReadableContentExtractor.java:533-555 | the tree is exactly LiveRemoval from index 0 with the clean test: a table goes when it has fewer than minWords td descendants, any other target when its textLength is below minWords and it is not a pre, and the live list is re-read at every index. Besides, only elements of the tag lose their parent, nothing else changes but child lists, a minWords of 0 or less changes nothing, for a tag other than table the first target goes when it qualifies, and every loose element keeps its node and its text children |
| Extractor.ReadableContentExtractor.CleanStep | src/main/java/br/readable/extractor/ReadableContentExtractor.java:536-554 | one round on the i-th entry of the live list is exactly the RemovalRound of that entry under the clean test, removes only targets of the original tree and never lengthens the live list |
| Extractor.ReadableContentExtractor.CleanIrrelevantImages | src/main/java/br/readable/extractor/ReadableContentExtractor.java:489-527 | only img elements whose width or height is a number below 70 lose their parent. Only the other img elements have their attributes changed: data-src moves to src, src is resolved against the base URI, and every other attribute is kept. The first image goes when it is small; when it is not small it stays Rewritten from its start: data-src gone, every other attribute kept and src its data-src (or src) resolved one or more times. Every loose element keeps its node and its text children |
| Extractor.ReadableContentExtractor.CleanImage | src/main/java/br/readable/extractor/ReadableContentExtractor.java:496-525 | a small image is detached; any other image has exactly its ImageRewritten attribute list. Every change stays within the pass's frame, and the live img list never grows |
| Extractor.ReadableContentExtractor.RewriteImageAt | src/main/java/br/readable/extractor/ReadableContentExtractor.java:516-525 | the image's attribute list becomes its RewriteImage; nothing else changes |
| Extractor.ReadableContentExtractor.CleanIrrelevantAttributes | src/main/java/br/readable/extractor/ReadableContentExtractor.java:457-487 | the tree shape and all text stay the same. Only descendants of the root have their attributes changed, and each only loses attributes whose name contains neither src, href nor text, or href attributes whose value starts with javascript:. imageBeforeText becomes true when an img is visited before a p with more than 20 characters of direct text, and is never cleared. Every loose element keeps its node and its text children |
| Extractor.ReadableContentExtractor.CleanWalk | src/main/java/br/readable/extractor/ReadableContentExtractor.java:466-486 | the walk over the elements changes only attributes of visited elements, each a pruning of its list, and imageBeforeText becomes true exactly when an img comes before a long enough p |
| Extractor.ReadableContentExtractor.CleanElement | src/main/java/br/readable/extractor/ReadableContentExtractor.java:469-485 | one element of the walk updates foundParagraph and imageBeforeText as the walk predicates say and prunes only that element's attributes |
| Extractor.ReadableContentExtractor.Visit | src/main/java/br/readable/extractor/ReadableContentExtractor.java:469-474 | one step of the walk updates foundParagraph and imageBeforeText as the prefix predicates say |
| Extractor.ReadableContentExtractor.PruneAttributes | src/main/java/br/readable/extractor/ReadableContentExtractor.java:477-483 | the live attribute loop leaves the element's attributes as LivePrune of the old list, with nothing else changed |
| Extractor.ReadableContentExtractor.SanitizeTop | src/main/java/br/readable/extractor/ReadableContentExtractor.java:155-175 | the clean, killDivs, killCodeSpansAndBreaks, cleanIrrelevantImages and cleanIrrelevantAttributes sequence keeps every existing node with its kind and tag, and every loose element other than the top untouched |
| Extractor.ReadableContentExtractor.CleanTags | src/main/java/br/readable/extractor/ReadableContentExtractor.java:156-164 | the nine clean calls keep every node's kind and tag and leave every loose element untouched |
| Extractor.ReadableContentExtractor.RemoveDuplicateHeadings | src/main/java/br/readable/extractor/ReadableContentExtractor.java:182-189 | the tree is exactly LiveRemoval from index 0 with the title test on that tag: a heading whose direct text equals the title goes, the live list is re-read at every index, so a copy shifted into a passed index stays. Only such headings lose their parent, and the first one goes |
| Extractor.ReadableContentExtractor.RemoveDuplicateTitle | src/main/java/br/readable/extractor/ReadableContentExtractor.java:180-190 | the tree is exactly TitleRemoval: the h1, h2 and h3 loops of LiveRemoval in turn, each on the tree the one before left. Only h1, h2 and h3 elements of the original tree whose direct text equals the title lose their parent, the first h1 goes when its direct text is the title, and every loose element keeps its node and its text children |
| Duplicates.TitleCopiesLooseKept | src/main/java/br/readable/extractor/ReadableContentExtractor.java:180-190 | removing heading copies, which are elements, leaves every loose element and its text children untouched |
| Extractor.ReadableContentExtractor.FindBlankParagraph | src/main/java/br/readable/extractor/ReadableContentExtractor.java:194-202 | the candidate is the first p under the top that has no visible character in its own text children |
| Extractor.ReadableContentExtractor.RemoveDuplicateDescription | src/main/java/br/readable/extractor/ReadableContentExtractor.java:193-205 | that candidate is detached exactly when its direct text equals the description; otherwise the tree is unchanged. Every loose element keeps its node and its text children |
| Duplicates.VisibleDescriptionKept | src/main/java/br/readable/extractor/ReadableContentExtractor.java:193-205 | the paragraph the description pass may remove has no visible character of its own, so a description with a visible character never matches it and the pass leaves the tree unchanged |
| Extractor.SetTextOnFresh | src/main/java/br/readable/extractor/ReadableContentExtractor.java:150-151 | setTextContent of a non-empty string leaves that string as the element's direct text |
| Extractor.SetTextContentEffect | src/main/java/br/readable/extractor/ReadableContentExtractor.java:63 | setTextContent on an element leaves only text children spelling the string (none for null), and every other node keeps its children |
| Scoring.ScoreByMatchClassId | src/main/java/br/readable/extractor/ReadableContentExtractor.java:314-335 | the score is the keyword score of class plus that of id plus that of itemprop, and lies in [-2997, 300] |
| Scoring.KeywordScoreEmpty | src/main/java/br/readable/extractor/ReadableContentExtractor.java:326-327 | an empty itemprop adds nothing, as the skipped branch does |
| Scoring.ClassContentExample | src/main/java/br/readable/extractor/ReadableContentExtractor.java:316-317 | class content alone scores 100 |
| Scoring.IdFooterExample | src/main/java/br/readable/extractor/ReadableContentExtractor.java:321-324 | id footer alone scores -999 |
| Scoring.Contribute | src/main/java/br/readable/extractor/ReadableContentExtractor.java:277-285 | the stored score, or the element's own score when there is none, plus the increment, is stored only when it is not negative; otherwise the map is unchanged |
| Scoring.RestartAfterDrop | src/main/java/br/readable/extractor/ReadableContentExtractor.java:277-285 | after a dropped negative result the next contribution restarts from the element's own score |
| Scoring.IncrementIsCommas | src/main/java/br/readable/extractor/ReadableContentExtractor.java:281-307 | the parent pass adds the comma count of the node's text content, the grandparent pass half of it (the length bonus never applies) |
| Scoring.ScoreElements | src/main/java/br/readable/extractor/ReadableContentExtractor.java:264-312 | the two loops over the candidates compute the ScoreMap of the passes |
| Scoring.PassKeys | src/main/java/br/readable/extractor/ReadableContentExtractor.java:268-309 | every key stored by a pass is the parent (or grandparent) key of one of the candidates |
| Scoring.ScoredAreDivsOrArticles | src/main/java/br/readable/extractor/ReadableContentExtractor.java:268-309 | every scored element is a div or article element, ignoring case |
| Scoring.ScoredHaveChildren | src/main/java/br/readable/extractor/ReadableContentExtractor.java:268-309 | every scored node is in the tree and has a child, since it is the parent or grandparent of a candidate |
| Scoring.KeyIsDivOrArticle | src/main/java/br/readable/extractor/ReadableContentExtractor.java:270-299 | the key a candidate feeds in either pass is a div or article element |
| Scoring.GrandparentKeyIsDiv | src/main/java/br/readable/extractor/ReadableContentExtractor.java:289-299 | the second pass feeds only a grandparent tagged exactly "div" (case-sensitive) through a parent tagged exactly "div" |
| Scoring.SelectTop | src/main/java/br/readable/extractor/ReadableContentExtractor.java:142-146 | no element exactly when the map is empty; otherwise one whose score is at least every score, and strictly above the scores earlier in iteration order |
| Scoring.TopCandidate | src/main/java/br/readable/extractor/ReadableContentExtractor.java:119-146 | no element exactly when nothing was scored; otherwise a scored element with the highest score, which is a div or article element |
| Scoring.Insert | src/main/java/br/readable/extractor/ReadableContentExtractor.java:123 | HashSet.add: the members are the old ones plus the node, with no repeats |
| Scoring.InsertAll | src/main/java/br/readable/extractor/ReadableContentExtractor.java:122-132 | adding several nodes: the members are the old ones plus the new, with no repeats |
| Scoring.FirstNonBlank | src/main/java/br/readable/extractor/ReadableContentExtractor.java:130-135 | the chosen text node is non-blank after trim, and none is chosen only when every one is blank |
| Scoring.FirstNonBlankText | src/main/java/br/readable/extractor/ReadableContentExtractor.java:130-135 | the loop with break finds FirstNonBlank |
| Scoring.DivTextsAreNonBlankText | src/main/java/br/readable/extractor/ReadableContentExtractor.java:127-136 | every node the div loop adds is a non-blank text node |
| Scoring.CandidatesShape | src/main/java/br/readable/extractor/ReadableContentExtractor.java:119-136 | the candidates hold every p of the body, with no repeats, and only p elements and non-blank text nodes |
| Scoring.CollectCandidates | src/main/java/br/readable/extractor/ReadableContentExtractor.java:119-136 | the two loops compute Candidates |
| Scoring.AddDivTexts | src/main/java/br/readable/extractor/ReadableContentExtractor.java:127-136 | the div loop adds each div's first non-blank text node |
| Patterns.KeywordScore | src/main/java/br/readable/extractor/ReadableContentExtractor.java:316-319 | 100 exactly when a content keyword occurs; -999 exactly when none does and a stopword does; 0 otherwise |
| Patterns.ContentExample | src/main/java/br/readable/extractor/ReadableContentExtractor.java:21 | "content" matches the content pattern |
| Patterns.FooterExample | src/main/java/br/readable/extractor/ReadableContentExtractor.java:22 | "footer" matches only the stopword pattern |
| Patterns.PrefixAdExample | src/main/java/br/readable/extractor/ReadableContentExtractor.java:22 | a value starting with ad matches the stopword pattern |
| Patterns.NoContentWord | src/main/java/br/readable/extractor/ReadableContentExtractor.java:21 | a value missing all of the letters p, n, c, x, b, s has no content keyword |
| Patterns.StopwordIgnoresTrailingSpace | src/main/java/br/readable/extractor/ReadableContentExtractor.java:449-452 | the joined value id + " " matches the stopword pattern exactly when id does |
| Patterns.LeadingDigits | src/main/java/br/readable/extractor/ReadableContentExtractor.java:25 | the longest prefix of digits |
| Patterns.ParseImageSize | src/main/java/br/readable/extractor/ReadableContentExtractor.java:501-509 | a size is read exactly when the value starts with a digit and has no line terminator after the digits; it is the value of the leading digits |
| Patterns.ImageSizeExamples | src/main/java/br/readable/extractor/ReadableContentExtractor.java:501-509 | "50" is 50, "100px" is 100, and "auto", "" and "7\n" give no size |
| Chars.NbspIsNotJavaWhitespace | src/main/java/br/readable/extractor/ReadableContentExtractor.java:566 | NBSP is not Java whitespace, and it is blank for the explicit 160 test |
| Chars.NbspSurvivesTrim | src/main/java/br/readable/extractor/ReadableContentExtractor.java:131 | trim keeps NBSP, so NBSP-only text is not blank |
| Chars.AsciiLower | src/main/java/br/readable/extractor/ReadableContentExtractor.java:21-24 | the case-insensitive matching lower-cases exactly the ASCII capitals |
| Chars.DotlessIMatchesDiv | src/main/java/br/readable/extractor/ReadableContentExtractor.java:274 | equalsIgnoreCase accepts DIV and the dotless-i spelling of div |
| Chars.CountChar | src/main/java/br/readable/extractor/ReadableContentExtractor.java:284 | the count is at most the length, and 0 exactly when the character does not occur |
| Chars.CountCharAppend | src/main/java/br/readable/extractor/ReadableContentExtractor.java:284 | the count over a concatenation is the sum of the counts |
| Chars.ContainsTrailingSpace | src/main/java/br/readable/extractor/ReadableContentExtractor.java:449 | appending a space does not change whether a word without spaces occurs |
| Queries.ElementsByTag | src/main/java/br/readable/extractor/ReadableContentExtractor.java:121 | getElementsByTagName returns only elements of the tag (any element for *) |
| Queries.ElementsByTagShrinks | src/main/java/br/readable/extractor/ReadableContentExtractor.java:424 | when nodes only leave child lists, a live element list does not grow |
| Queries.ElementsByTagSameShape | src/main/java/br/readable/extractor/ReadableContentExtractor.java:471-482 | attribute edits leave every element list as it was |
| Queries.AttributeEditsKeepShape | src/main/java/br/readable/extractor/ReadableContentExtractor.java:482 | setting or removing an attribute changes nothing but that attribute |
| Queries.TextLengthInIsZero | src/main/java/br/readable/extractor/ReadableContentExtractor.java:575-583 | the textLength fold over any child list is 0 |
| Queries.TextLengthIsZero | src/main/java/br/readable/extractor/ReadableContentExtractor.java:575-583 | textLength is 0 for every node, since no case adds a string length |
| Queries.TextKidsData | src/main/java/br/readable/extractor/ReadableContentExtractor.java:585-594 | every character of the first-level text comes from a direct text child |
| Queries.FirstLevelTextSameShape | src/main/java/br/readable/extractor/ReadableContentExtractor.java:585-594 | attribute edits keep every node's first-level text |
| Queries.HasVisibleIn | src/main/java/br/readable/extractor/ReadableContentExtractor.java:557-573 | true exactly when one of the children shows a visible character |
| Queries.NoVisibleCharMeansBlankText | src/main/java/br/readable/extractor/ReadableContentExtractor.java:557-573 | a visible character in the first-level text makes hasVisibleChar(node, true) true |
| Queries.VisibleChildShows | src/main/java/br/readable/extractor/ReadableContentExtractor.java:562-567 | a direct text child holding a visible character shows it |
| Queries.WholeText | src/main/java/br/readable/extractor/ReadableContentExtractor.java:563 | the whole text of a parentless text node is its own data |
| Queries.DataInWholeText | src/main/java/br/readable/extractor/ReadableContentExtractor.java:563 | a text child's data is part of its whole text |
| Queries.FindCommentNeedsComment | src/main/java/br/readable/extractor/ReadableContentExtractor.java:608-619 | findComment is true exactly when some comment among the descendants it walks, in document order, has data the sphereit pattern finds |
| Queries.TextNodesIn | src/main/java/br/readable/extractor/ReadableContentExtractor.java:628-636 | findTextNodes returns only text nodes |
| Queries.TextChildrenFound | src/main/java/br/readable/extractor/ReadableContentExtractor.java:628-636 | every direct text child is among them |
| Queries.IndexOf | src/main/java/br/readable/extractor/ReadableContentExtractor.java:142-146 | the position of a node in iteration order, or the length when it is absent |
| Metadata.LastContent | src/main/java/br/readable/extractor/ReadableContentExtractor.java:84-88 | none exactly when no meta has the property; otherwise the content of the last meta that has it |
| Metadata.TitleComesFromOgTitle | src/main/java/br/readable/extractor/ReadableContentExtractor.java:80-97 | a title always comes from an og:title meta, and an empty one only when the page has no title element |
| Metadata.FirstDescription | src/main/java/br/readable/extractor/ReadableContentExtractor.java:210-222 | none exactly when no meta has property og:description or name description; otherwise the content of the first one that does |
| Metadata.FirstDescribing | src/main/java/br/readable/extractor/ReadableContentExtractor.java:212-219 | the position of the first meta with property og:description or name description; every meta before it has neither |
| Metadata.MainImage | src/main/java/br/readable/extractor/ReadableContentExtractor.java:247-262 | none when an image came before the text; otherwise the content of the last og:image meta |
| Live.Evens | src/main/java/br/readable/extractor/ReadableContentExtractor.java:638-644 | the entries at even positions |
| Live.Odds | src/main/java/br/readable/extractor/ReadableContentExtractor.java:638-644 | the entries at odd positions |
| Live.EvensOddsPartition | src/main/java/br/readable/extractor/ReadableContentExtractor.java:638-644 | every child is removed or kept, never both |
| Live.LiveDone | src/main/java/br/readable/extractor/ReadableContentExtractor.java:638-644 | when the index passes the live length, the even-position children are detached and the odd ones remain |
| Live.LiveRemovalStep | src/main/java/br/readable/extractor/ReadableContentExtractor.java:639-643 | removing the child at index i of the live list keeps the loop's state |
| Live.LiveDetach | src/main/java/br/readable/extractor/ReadableContentExtractor.java:424-453 | a removal from the removable set keeps the pass within its frame and does not lengthen a live list |
| Live.LiveRemovalAdvance | src/main/java/br/readable/extractor/ReadableContentExtractor.java:536-554 | the round at index i of a live removal loop (clean, or a heading tag of removeDuplicateTitle) takes LiveRemoval at i to LiveRemoval at i + 1 |
| Live.LiveRemovalDone | src/main/java/br/readable/extractor/ReadableContentExtractor.java:536-554 | once the index reaches the length of the live list, LiveRemoval leaves the tree as it is |
| Live.SiblingHeadings | src/main/java/br/readable/extractor/ReadableContentExtractor.java:182-189 | a concrete page: a div whose children are two empty h1 elements |
| Live.AdjacentCopySkipped | src/main/java/br/readable/extractor/ReadableContentExtractor.java:182-189 | with two adjacent h1 copies of the (empty) title, the live loop removes the first; the second shifts into the passed index 0 and stays under the div although its text is the title |
| Wrap.Brs | src/main/java/br/readable/extractor/ReadableContentExtractor.java:361-363 | the br elements among the nodes |
| Wrap.WrapDone | src/main/java/br/readable/extractor/ReadableContentExtractor.java:357-368 | the finished walk leaves the element Wrapped |
| Sanitize.NonBr | src/main/java/br/readable/extractor/ReadableContentExtractor.java:360-367 | the non-br nodes, in order |
| Sanitize.GroupProperties | src/main/java/br/readable/extractor/ReadableContentExtractor.java:360-368 | the groups concatenate to the non-br children, none is empty, one starts at each run of non-br children, and the last is open exactly when the last child is not a br |
| Sanitize.GroupExample | src/main/java/br/readable/extractor/ReadableContentExtractor.java:360-368 | a, br, c gives the paragraphs [a] and [c] |
| Sanitize.Rule1Means | src/main/java/br/readable/extractor/ReadableContentExtractor.java:426-445 | the first killDivs rule fires exactly with one img, at least one p, more li or a than p, no pre, code, embed or object, and a sphereit comment |
| Sanitize.Rule2Means | src/main/java/br/readable/extractor/ReadableContentExtractor.java:448-453 | the second killDivs rule fires exactly when the id matches a stopword |
| Sanitize.MoveDataSrc | src/main/java/br/readable/extractor/ReadableContentExtractor.java:516-521 | a non-empty data-src moves to src; data-src is gone; other attributes stay |
| Sanitize.RewriteImage | src/main/java/br/readable/extractor/ReadableContentExtractor.java:516-525 | src becomes the resolved data-src, or src when there is no data-src; data-src is gone |
| Sanitize.RewriteImageKeepsOthers | src/main/java/br/readable/extractor/ReadableContentExtractor.java:516-525 | every other attribute keeps its value |
| Sanitize.RewriteImageKeepsSize | src/main/java/br/readable/extractor/ReadableContentExtractor.java:511-525 | the rewrite does not change whether the image is too small |
| Sanitize.RewriteImageRewrites | src/main/java/br/readable/extractor/ReadableContentExtractor.java:516-525 | the rewrite is a Rewritten attribute list whose src is the image source resolved exactly once |
| Sanitize.ResolvedTimesAdd | src/main/java/br/readable/extractor/ReadableContentExtractor.java:516-525 | resolving k more times after j resolutions is j + k resolutions |
| Sanitize.RewrittenTrans | src/main/java/br/readable/extractor/ReadableContentExtractor.java:489-527 | a Rewritten list rewritten again is Rewritten from the original: the resolution counts add up |
| Sanitize.CleanedStaysRewritten | src/main/java/br/readable/extractor/ReadableContentExtractor.java:489-527 | an image already Rewritten from its start stays Rewritten from it through any further round of the image pass |
| Sanitize.KillDivEffectShrinks | src/main/java/br/readable/extractor/ReadableContentExtractor.java:424-454 | a round of killDivs never lengthens the live div list, which bounds LiveKillDivs |
| Sanitize.KillDivsAdvance | src/main/java/br/readable/extractor/ReadableContentExtractor.java:424-454 | a round without a fault at index i moves the loop from LiveKillDivs at i to LiveKillDivs at i + 1; a round with a fault ends the loop with that round's tree |
| Sanitize.RewriteCleans | src/main/java/br/readable/extractor/ReadableContentExtractor.java:516-525 | rewriting a large enough image is within the pass's frame |
| Sanitize.DetachSmallCleans | src/main/java/br/readable/extractor/ReadableContentExtractor.java:511-513 | removing a small image is within the pass's frame |
| Sanitize.ImagesCleanedTrans | src/main/java/br/readable/extractor/ReadableContentExtractor.java:495-526 | two steps of the pass compose into one |
| Sanitize.LivePrune | src/main/java/br/readable/extractor/ReadableContentExtractor.java:477-483 | the live loop keeps only old attributes, and every one that is not removable |
| Sanitize.LivePruneIsPruning | src/main/java/br/readable/extractor/ReadableContentExtractor.java:477-483 | the loop's result is a pruning of the list |
| Sanitize.LivePruneSkips | src/main/java/br/readable/extractor/ReadableContentExtractor.java:478-482 | removing style skips the next attribute: style, class keeps class although class is removable |
| Sanitize.NotAllowed | src/main/java/br/readable/extractor/ReadableContentExtractor.java:480 | a name without r, h or x (ignoring ASCII case) is not allowed |
| Sanitize.WalkStep | src/main/java/br/readable/extractor/ReadableContentExtractor.java:466-474 | foundParagraph and imageBeforeText after one more element, as the two branches set them |
| Sanitize.AttrsCleanedStep | src/main/java/br/readable/extractor/ReadableContentExtractor.java:468-486 | one more pruned element keeps the walk within its frame |
| Duplicates.FirstBlank | src/main/java/br/readable/extractor/ReadableContentExtractor.java:194-202 | the first paragraph with no visible character of its own, or none when every paragraph has one |
| Duplicates.FirstFalse | src/main/java/br/readable/extractor/ReadableContentExtractor.java:196-201 | the first position from i on whose entry is false: every entry before it is true |
| Duplicates.Visibles | src/main/java/br/readable/extractor/ReadableContentExtractor.java:198 | for each paragraph, whether it shows a visible character of its own |
| Duplicates.PrunedKeepsFirstLevelText | src/main/java/br/readable/extractor/ReadableContentExtractor.java:183-189 | removing elements keeps every node's first-level text |
| Duplicates.CopiesShrink | src/main/java/br/readable/extractor/ReadableContentExtractor.java:181-189 | after one heading pass the next tag's duplicates are among the original ones |
| Duplicates.TitlePasses | src/main/java/br/readable/extractor/ReadableContentExtractor.java:180-190 | the h1, h2 and h3 passes together remove only headings of the original tree whose first-level text is the title, and keep every node's kind and tag |
| Duplicates.PassWithin | src/main/java/br/readable/extractor/ReadableContentExtractor.java:182-189 | one more heading pass keeps the removals within the original headings that repeat the title |
| Duplicates.CopiesNotText | src/main/java/br/readable/extractor/ReadableContentExtractor.java:181 | no heading that repeats the title is a text node |
| Images.Urls | src/main/java/br/readable/extractor/ReadableContentExtractor.java:235-239 | one resolved src per img, in order; an absent src reads as the empty string |
| Images.GatherNoRepeats | src/main/java/br/readable/extractor/ReadableContentExtractor.java:232-242 | the LinkedHashSet never holds a URL twice |
| Images.GatherMembers | src/main/java/br/readable/extractor/ReadableContentExtractor.java:232-242 | the result holds only URLs of the imgs, keeps what the set already had, and extends it in insertion order |
| Images.GatherBound | src/main/java/br/readable/extractor/ReadableContentExtractor.java:240 | a limit not yet reached is never exceeded |
| Images.GatherComplete | src/main/java/br/readable/extractor/ReadableContentExtractor.java:236-242 | a result short of the limit holds every URL |
| TextAppender.Appender.constructor | src/main/java/br/readable/extractor/ReadableContentExtractor.java:648-651 | the buffer is empty and both flags are false |
| TextAppender.Appender.Reset | src/main/java/br/readable/extractor/ReadableContentExtractor.java:653-657 | the buffer is empty and both flags are false |
| TextAppender.Appender.ToString | src/main/java/br/readable/extractor/ReadableContentExtractor.java:664-667 | a pending blank is written to the buffer, which is returned; the pending flag stays set |
| TextAppender.Appender.Append | src/main/java/br/readable/extractor/ReadableContentExtractor.java:673-703 | the state becomes Feed of the old state and the string, character by character |
| TextAppender.Appender.AppendRun | src/main/java/br/readable/extractor/ReadableContentExtractor.java:685-701 | a visible run writes the pending space and the run, consuming the blank that ends it, and the state is Feed of the prefix read so far |
| TextAppender.Appender.ScanRun | src/main/java/br/readable/extractor/ReadableContentExtractor.java:690-697 | the inner loop stops at a blank after i, or at the end: Feed up to it extends the buffer by the run, and Feed of the stopping blank only sets the pending flag |
| TextAppender.FeedPrefix | src/main/java/br/readable/extractor/ReadableContentExtractor.java:677-701 | reading one more character of the string is one more FeedChar step |
| TextAppender.FeedConcat | src/main/java/br/readable/extractor/ReadableContentExtractor.java:673-703 | appending a + b is appending a, then b |
| TextAppender.InitInv | src/main/java/br/readable/extractor/ReadableContentExtractor.java:648-657 | the empty state satisfies the invariant |
| TextAppender.FeedCharInv | src/main/java/br/readable/extractor/ReadableContentExtractor.java:679-700 | one character keeps the invariant |
| TextAppender.FeedInv | src/main/java/br/readable/extractor/ReadableContentExtractor.java:673-703 | after any appends since reset the buffer holds only visible characters and single spaces, each followed by a visible character, and hasVisibleChar says whether it has a visible character |
| TextAppender.Visibles | src/main/java/br/readable/extractor/ReadableContentExtractor.java:673-703 | the visible characters of a string, in order |
| TextAppender.FeedVisibles | src/main/java/br/readable/extractor/ReadableContentExtractor.java:673-703 | the visible characters appended reach the buffer in input order, and nothing else visible does |
| TextAppender.FeedHasVisible | src/main/java/br/readable/extractor/ReadableContentExtractor.java:700 | hasVisibleChar becomes true exactly when a visible character is appended |
| TextAppender.FlushOnce | src/main/java/br/readable/extractor/ReadableContentExtractor.java:664-667 | after the first toString a pending blank is the last character and no two spaces are adjacent |
| TextAppender.FlushTwice | src/main/java/br/readable/extractor/ReadableContentExtractor.java:412-414 | a second toString without reset leaves two trailing spaces, as the last text node of killCodeSpansAndBreaks gets |
| FastNodeUtils.RemoveChildren | src/main/java/org/jsoup/nodes/FastNodeUtils.java:5-10 | the tree becomes ClearChildren of the old tree: every child is orphaned, then the list is emptied |
| FastNodeUtils.OrphansThenClear | src/main/java/org/jsoup/nodes/FastNodeUtils.java:6-9 | orphaning the children one by one and then clearing the child list gives ClearChildren |
| FastNodeUtils.ClearedHasNoChildren | src/main/java/org/jsoup/nodes/FastNodeUtils.java:9 | the node has no children left |
| FastNodeUtils.FormerChildrenOrphaned | src/main/java/org/jsoup/nodes/FastNodeUtils.java:6-8 | every former child has no parent |
| FastNodeUtils.ClearChildrenFrame | src/main/java/org/jsoup/nodes/FastNodeUtils.java:5-10 | every other node, and every other field of every node, including the former children's subtrees, is unchanged |
| FastNodeUtils.ClearChildrenIdempotent | src/main/java/org/jsoup/nodes/FastNodeUtils.java:5-10 | a second call changes nothing |
| Dom.DetachWellFormed | src/main/java/br/readable/extractor/ReadableContentExtractor.java:444 | removeChild keeps the tree well formed, and afterwards no node lists the child |
| Dom.AttachWellFormed | src/main/java/br/readable/extractor/ReadableContentExtractor.java:366-367 | appending a parentless node at the end of another node's list keeps the tree well formed |
| Dom.Document.CreateElement | src/main/java/br/readable/extractor/ReadableContentExtractor.java:366 | the tree gains one element node with the tag at the next free id, and the tree stays well formed |
| Dom.Document.CreateTextNode | src/main/java/br/readable/extractor/ReadableContentExtractor.java:402 | the tree gains one text node holding the string at the next free id, and the tree stays well formed |
| Dom.Document.AppendChild | src/main/java/br/readable/extractor/ReadableContentExtractor.java:366-367 | appendChild keeps the tree well formed and makes it Append of the old tree |
| Dom.Document.RemoveFromParent | src/main/java/br/readable/extractor/ReadableContentExtractor.java:444 | removeChild keeps the tree well formed and makes it Detach of the old tree |
| Dom.Document.SetAttribute | src/main/java/br/readable/extractor/ReadableContentExtractor.java:47 | setAttribute keeps the tree well formed and sets that one attribute |
| Dom.Document.RemoveAttribute | src/main/java/br/readable/extractor/ReadableContentExtractor.java:520 | removeAttribute keeps the tree well formed and drops that one attribute |
| Dom.Document.SetText | src/main/java/br/readable/extractor/ReadableContentExtractor.java:48 | setTextContent keeps the tree well formed and makes it SetTextContent of the old tree |
| Dom.DetachEffect | src/main/java/br/readable/extractor/ReadableContentExtractor.java:444 | after removeChild the node has no parent, its old parent lists it no more, and nothing else changes |
| Dom.DetachAt | src/main/java/br/readable/extractor/ReadableContentExtractor.java:444 | the same effect of removeChild, stated for one node |
| Dom.AppendEffect | src/main/java/br/readable/extractor/ReadableContentExtractor.java:366-367 | after appendChild the node is the last child of the new parent, its old parent lists it no more, and nothing else changes |
| Dom.AppendAt | src/main/java/br/readable/extractor/ReadableContentExtractor.java:366-367 | the same effect of appendChild, stated for one node |
| Dom.AppendWellFormed | src/main/java/br/readable/extractor/ReadableContentExtractor.java:366-367 | appendChild keeps the tree well formed |
| Dom.NewNode | src/main/java/br/readable/extractor/ReadableContentExtractor.java:366 | createElement and createTextNode add one childless, parentless node at the next id |
| Dom.NewNodeWellFormed | src/main/java/br/readable/extractor/ReadableContentExtractor.java:366 | the new node keeps the tree well formed and its id was free |
| Dom.ClearChildrenWellFormed | src/main/java/org/jsoup/nodes/FastNodeUtils.java:5-10 | clearing a child list keeps the tree well formed |
| Dom.SetTextContentKids | src/main/java/br/readable/extractor/ReadableContentExtractor.java:48 | setTextContent leaves a single text child holding a non-empty string, no child otherwise, and every other child list unchanged |
| Dom.SetAttr | src/main/java/br/readable/extractor/ReadableContentExtractor.java:47 | the attribute reads back the value, every other attribute reads as before, and names stay unique |
| Dom.RemoveAttr | src/main/java/br/readable/extractor/ReadableContentExtractor.java:520 | the attribute reads back empty; exactly the other attributes are kept |
| Dom.Without | src/main/java/br/readable/extractor/ReadableContentExtractor.java:444 | removing a node from a child list keeps exactly the other entries, without repeats when there were none |
| Frames.PrunedTrans | src/main/java/br/readable/extractor/ReadableContentExtractor.java:155-167 | two removal steps with the same removable set compose into one |
| Frames.GrownTrans | src/main/java/br/readable/extractor/ReadableContentExtractor.java:171-175 | two steps that keep every old node's kind, tag, attributes and text compose |
| Frames.AppendOrphan | src/main/java/br/readable/extractor/ReadableContentExtractor.java:72-73 | appending a parentless node grows the tree: the node becomes the parent's last child and no other child list changes |
| Frames.TagsKeptTrans | src/main/java/br/readable/extractor/ReadableContentExtractor.java:155-205 | the passes of getMainContent together keep every node's kind and tag |

## Left out

- HTML parsing, the DOM implementation and XML serialization are not part of this model. The DOM operations used are modelled on the arena tree in `Dom`.
- `URI.create` and `URI.resolve` are the parameter `resolve`. Their failures on a malformed base URI or reference are not modelled.
- The regular expressions are substring and prefix predicates over ASCII lower-casing, which matches Java's default `CASE_INSENSITIVE` flag. `Character.isWhitespace` is written out for the characters Java lists. A Dafny `char` is a Unicode scalar value, so a string is a sequence of code points.
- Java's `String.length()` and `charAt` count UTF-16 units, and the model counts code points. The two differ only on supplementary characters, each of which is two units in Java. The one test where this shows is the length test of cleanIrrelevantAttributes (`length() > 20`), which `Visit` states on code points. The text appender and `trim` treat a supplementary character alike either way, since neither half of a surrogate pair is blank. On a paragraph whose direct text is 11 emoji, Java sees length 22 and sets foundParagraph, and the model sees 11 and does not.
- Visit: the `length() > 20` test on a paragraph's direct text counts code points, where Java counts UTF-16 units, as the line above explains.
- `Integer.parseInt` overflow on an image size of ten or more digits is not modelled. The size is an unbounded natural number.
- `topDiv.normalize()` (merging adjacent text nodes, dropping empty ones) is a DOM Core operation and is left out. The passes after it run on the tree as it was.
- HashMap, HashSet and NamedNodeMap iteration orders depend on the implementation. They are modelled as a fixed order: the score map and the candidate set use insertion order, and an attribute list keeps its order.
- `isElementContentWhitespace()` is false for every text node of a document without a DTD that declares element content, so it is left out of the candidate test.
- Sub-tree recursions (getElementsByTagName, textContent, textLength, findComment, findTextNodes, hasVisibleChar, killBrWrapPattern, killCodeSpansAndBreaks) take a fuel bound equal to the number of ids ever allocated. Acyclicity of the tree is not assumed, so a cyclic tree is cut off instead of overflowing the stack.
- The no-argument constructor, which leaves the document null, and the one- and two-argument `getMainContent` overloads are left out. Every call site passes the arguments explicitly.
- `getTitle`, `getDescription` and `getMainImage` are the functions `Title`, `Description` and `MainImage` of the tree. `Extract` reads them before it creates the two detached elements. No created node is a meta or title element, so creation does not change their values.
- `countMatches(Node, CharSequence)` is never called by the class and is left out. The comma count uses `StringUtils.countMatches` on the text content, which is `CountChar`.
- These exceptions are modelled as a `Fault` that the method returns as a `Failure`, instead of being thrown:
  - the NullPointerException of killDivs, when a div the first rule removed is removed again;
  - the NullPointerException of a null main content, when there is no body;
  - the HIERARCHY_REQUEST_ERR of appending an element into itself. Assemble models it, and extract never reaches it (EmptyRootNotChosen).
- getTitle's fallback reads `getNodeValue()` of the first `<title>` element. For an element that value is null, so the fallback never yields the title text. `Metadata.Title` follows the code: with no non-empty og:title and a `<title>` element, there is no title.
- KillBrWrapPattern: the exact result (the element is Wrapped, or unchanged without a br child) is stated only when the recursion into the children is not taken. With the recursion, only the frame is stated: no existing node changes kind, tag, attributes or text, and only p elements are created. Showing that the recursion leaves the element's own child list alone needs acyclicity, which the model does not assume.
- WrapBrChildren: Wrapped is stated only when the snapshot is the element's current child list and the element is not its own child.
- KillCodeSpansAndBreaks: the exact child list (SpansKilled) is stated only when the recursion into the children is not taken (fuel 0); with the recursion, a p or div child's treatment depends on what the recursion found below it, and only the frame is stated: only text nodes are created, and no existing node changes kind, tag, attributes or text. The text held by each new text node (the collector's output, which reads getWholeText across neighbouring text nodes) is not stated; only whether the last one has a visible character is.
- Clean: the removal set in the Pruned clause is coarse (every table, for the table tag). The td count test is in the exact LiveRemoval clause.
- CleanTags: the nine clean calls (form, nav, table, iframe, font, script, aside, button, hr) are stated only by their composed frame: kinds and tags are kept and loose elements are untouched. Each Clean call's own contract states its exact LiveRemoval.
- SanitizeTop: the composed contract states that every node keeps its kind and tag and that loose elements other than the top are untouched, not the removal sets of the passes. Each pass's own contract is stronger.
- FinishTop: like SanitizeTop, the composed contract states kinds, tags and the loose elements only, not which nodes the sanitizer and duplicate passes remove.
- SelectAndFinish: it states the selection and the frame, and carries FinishTop's frame only, not the removal sets of the passes that FinishTop runs.
- GetMainContent: the removal sets of the sanitizer and duplicate passes are not carried up into its contract; the selected element is tied to the score map of the page as it was after rewrapping, before the passes ran.
- Extract: the figure test is stated on the tree as it is when extract reaches the test (the ghost result `tested`, after the h1 and p.intro are appended to the article), not on the tree getMainContent returned. The element search takes a fuel bound equal to the number of ids ever allocated, and the appends create nodes, so the two counts are not equated.
- CleanIrrelevantImages: a kept image's src is stated as its source resolved one or more times, because the model does not prove that the live img list visits each image only once (acyclicity is not assumed). The exact once-resolved src is stated only for the first image (through CleanImage's exact ImageRewritten).
