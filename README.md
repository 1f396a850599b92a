# email-forwarder-lambda, modelled in Dafny

The Lambda function receives SNS notifications. Each notification names stored emails.
For each email it decides whether to forward it and builds the outbound message. This
project models the two pieces of logic that do that work:

- **EmailUtils**: the walks over a parsed MIME tree.
  - `getContent` collects the distinct body-text fragments in document order into a
    `LinkedHashSet`, then renders them as `"\r\n"` followed by the fragments, with nothing
    between fragments.
  - `getAttachments` puts every named attachment into a `LinkedHashMap`.
  - Also modelled: the `removeLastLineFeeds` loop and the string steps around the HTML
    sanitiser.
- **SNSHandler**:
  - `processEmail`: the subject, content and ignore-list filters; the From rules; the
    recipient loop; the choice between SMTP and SES.
  - `handleRequest`: handles records and their objects in order and stops at the first
    exception.

The files:

- `nullable.dfy`: `Option`, which stands for a Java `null`.
- `string_utils.dfy`: the commons-lang and `java.lang.String` helpers the code relies on:
  - `isNotEmpty`, `trim`, `trimToEmpty`;
  - `split(";")`, which drops trailing empty strings;
  - `containsNone`, `equalsIgnoreCase`, `containsIgnoreCase`, `endsWith`, `chomp`.
- `ordered.dfy`:
  - the insertion-ordered set and map (`Insert`/`InsertAll`, `MapPut`/`PutAll`) and the
    lemmas about them;
  - the classes `LinkedSet` and `LinkedMap`, which stand for the `LinkedHashSet` and
    `LinkedHashMap` that the walks fill in place.
- `email_utils.dfy`: the MIME tree (`Part`, `Content`) and the EmailUtils methods. Each
  method is proved against a specification function of the tree (`Texts`, `Fragments`,
  `Render`, `AttachmentEntries`).
- `sns_handler.dfy`: `ProcessEmail`, proved equal to the decision function `Decide`, and
  `HandleRequest`, proved equal to the fold `RunRecords`.

Foreign behaviour is passed in as total functions, and the model assumes nothing about
them. These are:

- the jsoup parse/inject/serialise step;
- `Jsoup.clean`;
- `String.valueOf` of non-string content;
- `Part.getInputStream`;
- the address syntax checks of javax.mail;
- whether a transport send succeeds.

Four behaviours of the code that a reader of the forwarder might not expect:

- **Plain text is not stripped.** `EmailUtils.java:64` discards the result of
  `removeLastLineFeeds`, so plain fragments keep their trailing `"\r\n"`
  (`EmailUtils.PlainTextVerbatim`).
- **Only CRLF counts as a trailing line break.** The loop at `EmailUtils.java:77-79` tests
  only for `"\r\n"`, so a trailing lone `"\n"` is kept even where the function is applied.
- **The rendered body starts with a line break.** `EmailUtils.java:49-51` appends `"\r\n"`
  while the builder is still empty, that is once, before the first fragment. A single plain
  leaf with content C therefore extracts to `"\r\n"` followed by C.
- **Sentinels are replaced before sanitising.** `EmailUtils.java:94-95` replaces the
  `\r\n` sentinel with CRLF before `Jsoup.clean` runs, not after.

## Model

| member | source | states |
|---|---|---|
| StringUtils.EqualsIgnoreCaseIsFoldedEquality | src/main/java/com/fernandoglatz/emailforwarder/handler/SNSHandler.java:131 | equalsIgnoreCase holds exactly when both folded strings are equal |
| StringUtils.ContainsIgnoreCaseIsFoldedContainment | src/main/java/com/fernandoglatz/emailforwarder/handler/SNSHandler.java:132 | containsIgnoreCase holds exactly when the folded search string occurs at some offset of the folded text |
| StringUtils.EmptySearchAlwaysContained | src/main/java/com/fernandoglatz/emailforwarder/handler/SNSHandler.java:139 | the empty string is contained in every string |
| StringUtils.Trim | src/main/java/com/fernandoglatz/emailforwarder/handler/SNSHandler.java:117-118 | the result is a substring of the input with only characters at or below U+0020 around it, and neither of its ends is such a character |
| StringUtils.TrimBlank | src/main/java/com/fernandoglatz/emailforwarder/handler/SNSHandler.java:117 | a string made only of blanks trims to "" |
| StringUtils.Fields | src/main/java/com/fernandoglatz/emailforwarder/handler/SNSHandler.java:117-118 | there is at least one field and no field contains ';' |
| StringUtils.DropTrailingEmpty | src/main/java/com/fernandoglatz/emailforwarder/handler/SNSHandler.java:117-118 | the result is a prefix, it does not end with an empty field, and only empty fields were dropped |
| StringUtils.SplitJoin | src/main/java/com/fernandoglatz/emailforwarder/handler/SNSHandler.java:117-118 | no split element contains ';', and joining the elements back with ';' gives the input without its trailing separators |
| StringUtils.SplitEmptyIff | src/main/java/com/fernandoglatz/emailforwarder/handler/SNSHandler.java:117-118 | split gives no element exactly when the string is non-empty and made of ';' only |
| StringUtils.Chomp | src/main/java/com/fernandoglatz/emailforwarder/util/EmailUtils.java:78 | a trailing "\r\n" is removed, otherwise one trailing "\r" or "\n" is removed, otherwise nothing changes |
| Ordered.InsertAllProperties | src/main/java/com/fernandoglatz/emailforwarder/util/EmailUtils.java:43 | adding to a duplicate-free ordered set keeps it duplicate-free, keeps the old elements as a prefix, and gives the union of old and new elements |
| Ordered.InsertAllKnown | src/main/java/com/fernandoglatz/emailforwarder/util/EmailUtils.java:65 | adding elements already present changes nothing |
| Ordered.InsertAllFirstSeenOrder | src/main/java/com/fernandoglatz/emailforwarder/util/EmailUtils.java:43 | the set built from a sequence holds each distinct element once, ordered by each element's first occurrence |
| Ordered.PutAllShape | src/main/java/com/fernandoglatz/emailforwarder/util/EmailUtils.java:108 | a sequence of puts keeps the map well formed, orders keys by first put, and the key set is the old keys plus every put key |
| Ordered.PutAllValues | src/main/java/com/fernandoglatz/emailforwarder/util/EmailUtils.java:137 | a put key holds the value of its last put, and a key that was not put keeps its old value |
| Ordered.LinkedSet.Add | src/main/java/com/fernandoglatz/emailforwarder/util/EmailUtils.java:65 | LinkedHashSet.add appends an element that is not yet present and otherwise leaves the set unchanged |
| Ordered.LinkedMap.Put | src/main/java/com/fernandoglatz/emailforwarder/util/EmailUtils.java:137 | LinkedHashMap.put keeps a key's first position and replaces its value |
| EmailUtils.StripTrailingLineFeeds | src/main/java/com/fernandoglatz/emailforwarder/util/EmailUtils.java:76-81 | the result does not end with "\r\n", and the input is the result followed by some number of "\r\n" |
| EmailUtils.RemoveLastLineFeeds | src/main/java/com/fernandoglatz/emailforwarder/util/EmailUtils.java:76-81 | the chomp loop leaves exactly the input without its trailing run of "\r\n" |
| EmailUtils.StripTrailingLineFeedsIdempotent | src/main/java/com/fernandoglatz/emailforwarder/util/EmailUtils.java:76-81 | stripping twice equals stripping once |
| EmailUtils.StripTrailingLineFeedsKeepsOthers | src/main/java/com/fernandoglatz/emailforwarder/util/EmailUtils.java:77 | a string that does not end with "\r\n" is returned unchanged, even when it ends with a lone "\n" |
| EmailUtils.RemoveLineTerminators | src/main/java/com/fernandoglatz/emailforwarder/util/EmailUtils.java:85 | no line terminator matched by Java's `\R` remains, and a string without one is returned unchanged |
| EmailUtils.RemoveLineTerminatorsChar | src/main/java/com/fernandoglatz/emailforwarder/util/EmailUtils.java:85 | a single line terminator is replaced by the empty string and any other character is kept; with the append law this fixes the removal on every string |
| EmailUtils.RemoveLineTerminatorsAppend | src/main/java/com/fernandoglatz/emailforwarder/util/EmailUtils.java:85 | removal distributes over concatenation, so every other character is kept in order |
| EmailUtils.HtmlParserInputHasNoLineTerminators | src/main/java/com/fernandoglatz/emailforwarder/util/EmailUtils.java:85-86 | the string handed to the HTML parser holds no line terminator |
| EmailUtils.NoSentinelLeft | src/main/java/com/fernandoglatz/emailforwarder/util/EmailUtils.java:94 | after the replacement, no backslash-r-backslash-n sentinel occurs anywhere in the serialised text |
| EmailUtils.ReplaceSentinelsRoundTrip | src/main/java/com/fernandoglatz/emailforwarder/util/EmailUtils.java:91-94 | on a text without carriage returns, restoring every "\r\n" to the sentinel gives back the original, so each sentinel became one CRLF and nothing else changed |
| EmailUtils.ReplaceSentinelsIdentity | src/main/java/com/fernandoglatz/emailforwarder/util/EmailUtils.java:94 | a serialisation holding no backslash-r-backslash-n sentinel is left unchanged, whatever other characters (a carriage return included) it holds |
| EmailUtils.ReplaceSentinelsFirst | src/main/java/com/fernandoglatz/emailforwarder/util/EmailUtils.java:94 | the first sentinel, after text free of one, becomes CRLF and the scan resumes right after it; with the identity law and the non-overlapping sentinel this fixes the replacement on every string |
| EmailUtils.GetContent | src/main/java/com/fernandoglatz/emailforwarder/util/EmailUtils.java:42-57 | the body is "" when no fragment was collected, otherwise "\r\n" followed by the collected fragments in insertion order with nothing between them |
| EmailUtils.AppendFragments | src/main/java/com/fernandoglatz/emailforwarder/util/EmailUtils.java:46-56 | the StringBuilder loop yields "" for no fragments, otherwise one "\r\n" followed by every fragment in set order |
| EmailUtils.GetContentFromPart | src/main/java/com/fernandoglatz/emailforwarder/util/EmailUtils.java:59-74 | checks text/plain first, then text/html, then multipart, and skips anything else; adds the part's fragments to the caller's set in document order |
| EmailUtils.GetContentFromMultipart | src/main/java/com/fernandoglatz/emailforwarder/util/EmailUtils.java:98-105 | the children are visited in index order, each adding its fragments to the set |
| EmailUtils.TextsOfConcat | src/main/java/com/fernandoglatz/emailforwarder/util/EmailUtils.java:101-104 | the fragments of a sequence of children are those of each child, concatenated in index order |
| EmailUtils.FragmentsFirstSeen | src/main/java/com/fernandoglatz/emailforwarder/util/EmailUtils.java:43-69 | the collected fragments are distinct, they are exactly the fragments the walk produced, and they are ordered by first occurrence in document order |
| EmailUtils.RepeatedFragmentIgnored | src/main/java/com/fernandoglatz/emailforwarder/util/EmailUtils.java:65-72 | a further child of a multipart message whose fragments all occur earlier in the message leaves the collected fragments and the rendered body unchanged, because the LinkedHashSet ignores repeated adds |
| EmailUtils.PlainTextVerbatim | src/main/java/com/fernandoglatz/emailforwarder/util/EmailUtils.java:62-65 | a part declared text/plain, in any letter case, renders as "\r\n" followed by its content unchanged (trailing "\r\n" kept), and its content is never walked into |
| EmailUtils.OtherPartsSkipped | src/main/java/com/fernandoglatz/emailforwarder/util/EmailUtils.java:71-73 | a part that is neither text, HTML nor multipart yields the empty body |
| EmailUtils.DuplicateLeavesCollectedOnce | src/main/java/com/fernandoglatz/emailforwarder/util/EmailUtils.java:65 | two equal plain leaves render as one copy of their text |
| EmailUtils.GetAttachments | src/main/java/com/fernandoglatz/emailforwarder/util/EmailUtils.java:107-113 | a fresh map holding the result of putting, in document order, every named attachment of the tree |
| EmailUtils.GetAttachmentsFromPart | src/main/java/com/fernandoglatz/emailforwarder/util/EmailUtils.java:124-143 | an attachment, tested first, is put under its file name; otherwise multipart content is walked into; anything else changes nothing |
| EmailUtils.GetAttachmentsFromMultipart | src/main/java/com/fernandoglatz/emailforwarder/util/EmailUtils.java:115-122 | the children are visited in index order, each adding its puts to the map |
| EmailUtils.AttachmentKeysNonEmpty | src/main/java/com/fernandoglatz/emailforwarder/util/EmailUtils.java:128 | every put is keyed by a non-empty file name |
| EmailUtils.AttachmentsMap | src/main/java/com/fernandoglatz/emailforwarder/util/EmailUtils.java:124-143 | the returned map is well formed; its keys are the distinct file names in first-put order; each key is non-empty and holds the bytes of its last part |
| EmailUtils.AttachmentNotWalkedInto | src/main/java/com/fernandoglatz/emailforwarder/util/EmailUtils.java:128-141 | an attachment part is stored under its own name only, holding its own stream bytes, whatever its content holds |
| EmailUtils.SameFileNameKeepsLaterBytes | src/main/java/com/fernandoglatz/emailforwarder/util/EmailUtils.java:137 | two attachments with one file name give one entry, holding the later part's bytes |
| SNSHandler.AnyContainedIff | src/main/java/com/fernandoglatz/emailforwarder/handler/SNSHandler.java:138-140 | the accumulated ignore flag is true exactly when some entry is contained, ignoring case |
| SNSHandler.MatchIgnoreList | src/main/java/com/fernandoglatz/emailforwarder/handler/SNSHandler.java:138-140 | the or-assigning loop computes whether any ignore entry occurs in the content |
| SNSHandler.FirstInvalid | src/main/java/com/fernandoglatz/emailforwarder/handler/SNSHandler.java:167-169 | no destination is rejected exactly when every destination parses; otherwise the one reported is the first rejected |
| SNSHandler.AddRecipients | src/main/java/com/fernandoglatz/emailforwarder/handler/SNSHandler.java:167-169 | the loop raises on exactly the first rejected destination; otherwise the recipients are all destinations, in order |
| SNSHandler.ProcessEmail | src/main/java/com/fernandoglatz/emailforwarder/handler/SNSHandler.java:106-182 | processEmail's outcome (ignore, forward a built message, or an exception) on the body text getContent extracts |
| SNSHandler.IgnoredIffConditionFails | src/main/java/com/fernandoglatz/emailforwarder/handler/SNSHandler.java:134-181 | a message is ignored exactly when the destination is empty, the subject or content filter fails, or an ignore entry matches |
| SNSHandler.NoDestinationNoForward | src/main/java/com/fernandoglatz/emailforwarder/handler/SNSHandler.java:134-143 | without a non-empty destination nothing is built or sent |
| SNSHandler.SubjectFilter | src/main/java/com/fernandoglatz/emailforwarder/handler/SNSHandler.java:131 | an unset or empty filter always matches; a set filter never matches a missing subject and otherwise matches exactly when the folded strings are equal |
| SNSHandler.ContentFilter | src/main/java/com/fernandoglatz/emailforwarder/handler/SNSHandler.java:132 | an unset or empty filter always matches; otherwise the folded filter must occur in the folded extracted content |
| SNSHandler.IgnoreOrderIrrelevant | src/main/java/com/fernandoglatz/emailforwarder/handler/SNSHandler.java:137-141 | reordering the ignore entries does not change the result |
| SNSHandler.EmptyEntrySuppressesAll | src/main/java/com/fernandoglatz/emailforwarder/handler/SNSHandler.java:117-141 | an empty ignore entry suppresses every message |
| SNSHandler.DoubleSeparatorHasEmptyEntry | src/main/java/com/fernandoglatz/emailforwarder/handler/SNSHandler.java:117 | "a;;b" splits to "a", "" and "b" |
| SNSHandler.BlankIgnoreValueSuppressesAll | src/main/java/com/fernandoglatz/emailforwarder/handler/SNSHandler.java:117-141 | an ignore value of blanks only is non-empty, trims to "" and splits to [""], so it suppresses every message |
| SNSHandler.FromRules | src/main/java/com/fernandoglatz/emailforwarder/handler/SNSHandler.java:152-165 | no override gives the original sender list; an override containing '<' is used unchanged; otherwise the first sender's display name gives name + " <" + override + ">", no display name gives the override, and no sender at all raises |
| SNSHandler.FromTakesDisplayName | src/main/java/com/fernandoglatz/emailforwarder/handler/SNSHandler.java:157-158 | the override "ops@example.com" with sender "Jane Doe" gives "Jane Doe <ops@example.com>" |
| SNSHandler.ForwardedMessage | src/main/java/com/fernandoglatz/emailforwarder/handler/SNSHandler.java:143-177 | subject, original content and content type are copied verbatim; Reply-To is the original From and X-Original-To the original To; From follows the From rules; recipients are exactly the trimmed destination split on ';', in order; SMTP is chosen exactly when the smtp host is non-empty, otherwise SES |
| SNSHandler.ForwardedWhenAllParses | src/main/java/com/fernandoglatz/emailforwarder/handler/SNSHandler.java:143-169 | when the condition holds, a sender exists and every address parses, the message is forwarded |
| SNSHandler.HandleObject | src/main/java/com/fernandoglatz/emailforwarder/handler/SNSHandler.java:75-95 | one object's effect: skipped, an exception, or one message handed to its transport |
| SNSHandler.HandleObjects | src/main/java/com/fernandoglatz/emailforwarder/handler/SNSHandler.java:74-96 | the objects of one record are handled in order until the first exception |
| SNSHandler.HandleRequest | src/main/java/com/fernandoglatz/emailforwarder/handler/SNSHandler.java:64-104 | the answer is "Error on execution" exactly when the ordered run failed, otherwise "Executed"; the messages sent are those of the run |
| SNSHandler.FailureStopsRecords | src/main/java/com/fernandoglatz/emailforwarder/handler/SNSHandler.java:98-101 | once an exception has occurred, later records change nothing |
| SNSHandler.FailureStopsObjects | src/main/java/com/fernandoglatz/emailforwarder/handler/SNSHandler.java:74-96 | once an exception has occurred, later objects of the record change nothing |
| SNSHandler.SentOnlyGrows | src/main/java/com/fernandoglatz/emailforwarder/handler/SNSHandler.java:67-97 | messages already sent stay sent, and later messages are only appended |
| SNSHandler.RecordsFailIff | src/main/java/com/fernandoglatz/emailforwarder/handler/SNSHandler.java:64-104 | the run fails exactly when some record is unparsable or some object raises |

## Left out

- I/O plumbing is left out:
  - SNS and S3 event parsing, S3 retrieval and stream copying (`SNSHandler.java:66-95`)
    are abstract `Notification` and `Retrieval` values;
  - logging is left out;
  - `System.getenv` becomes the `Config` record.
- Sending is left out: `EmailUtils.sendSMTP`, `sendEmailUsingSES` and the `System.getProperties()`
  mutation. The model records only which transport is chosen, plus whether a send succeeds
  (the `Env` function `delivers`).
- MIME parsing by javax.mail is left out. The parsed tree is the input:
  - `Part.isMimeType` compares the part's already-parsed base type with the argument, ignoring
    ASCII case; parameters and wildcards are not modelled;
  - `getContent` and `getInputStream` exceptions (IOException, MessagingException) are not
    modelled.
- jsoup is left out. Parsing, prettyPrint(false), the sentinel injection before `<br>` and
  `<p>`, serialisation and `Jsoup.clean` with `Safelist.none()` are uninterpreted functions
  in `Library`. Only the string steps at `EmailUtils.java:85` and `:94` are modelled.
- `InternetAddress` is left out:
  - `InternetAddress.toString` formatting: Reply-To, X-Original-To and a copied From keep the
    address lists they are formatted from;
  - `new InternetAddress(email)` and the parse in `setFrom(String)` are the uninterpreted
    predicates of `AddressSyntax`;
  - `setFrom` of a copied sender list is taken to succeed;
  - the cast of `emailFrom[0]` is taken to succeed.
- Attachment streams carry the bytes that were read, not a re-readable `InputStream`.
- SNSHandler.SubjectFilter: folds case for ASCII letters only, where Java's equalsIgnoreCase folds every Unicode letter; the model carries no Unicode case tables.
- SNSHandler.ContentFilter: folds case for ASCII letters only, as above.
- StringUtils.EqualsIgnoreCaseIsFoldedEquality: ASCII folding only, as above.
- StringUtils.ContainsIgnoreCaseIsFoldedContainment: ASCII folding only, as above.
- SNSHandler.HandleRequest: does not model exceptions raised while the stored message is
  read: a failing `new MimeMessage(null, inputStream)` (`SNSHandler.java:120`), and the
  IOException or MessagingException of `getContent` during extraction (`EmailUtils.java:60`,
  `EmailUtils.java:84`) and on the message itself (`SNSHandler.java:123`). A failing fetch
  from S3 is modelled, as `RetrievalFailed`.
