# filex / xsl editing core, in Dafny

A model of the logic at the centre of the filex/xsl file editor, with proofs about it:

- **The data-URI codec** of `xsl/utils.py`:
  - `DATA_URI_PATTERN` as a matcher, with soundness, completeness and an exact grammar characterisation.
  - `is_data_uri` and `parse_data_uri`, with their defaults and error cases.
  - `create_data_uri`, with both its branches.
  - The coders it relies on, as Dafny functions: base64 (section 4 of RFC 4648) strict and lenient, UTF-8 (RFC 3629) and `urllib.parse.quote`.
  - Round trips: `parse(create(d, m, c, True)).data == d`, and the percent-quoting round trip.
- **The document editor** `FileEditor` of `xsl/editor.py`, as a class over a node sequence:
  - The ordered namespace registry: seeded, then extended by the root's declarations.
  - `query`, on either parser, including the fallback's prefix rewriting.
  - Attribute-name resolution and the storage key used for prefixed names.
  - The first-match getters with their defaults.
  - The broadcast setters.
  - `extract_data_uri` with its owner re-query.
  - `list_elements` and `detect_file_type`.
- **The older editor** `FileEditor` of `filex/cli.py`:
  - Suffix-and-content classification, `find_by_xpath` with its fixed namespace map, and loading.
  - The first-match setters, `add_element` and `remove_element`.
  - Its own data-URI split with lenient base64 decoding, and `list_elements`.
  - The declaration rule of `save`, and `backup`.
- **The small parsers of `xsl/cli.py`**: the `--attrs` string, the 100-character previews and the `--limit` accounting.

Files, one module each: `wrappers.dfy` (Option, Result), `strings.dfy` (the Python `str` operations used), `base64.dfy`, `text.dfy` (UTF-8, percent-quoting), `data_uri.dfy`, `tree.dfy` (nodes, matches, the evaluator type), `namespaces.dfy`, `xsl_editor.dfy`, `filex_editor.dfy`, `cli_parsers.dfy`.

The parsed tree is a sequence of nodes; node 0 is the root, each node records its parent, parents precede their children, and siblings are in id order (after an appended child, ids no longer follow document order across the whole tree). An XPath match is an element id or a string (attribute values and text nodes have no `text`, `get`, `set` or `attrib`). The XPath engine and the parsers are functions the editors are given. Each evaluator is required to report only ids within the node sequence it was given (a detached node's id is within it, though the node is no longer in the tree).

## Model

| member | source | states |
|---|---|---|
| Strings.SplitOnce | xsl/cli.py:247 | `split(c, 1)` cuts at the first `c`: before + `c` + after is the string, and before holds no `c` |
| Strings.JoinSplit | xsl/cli.py:245 | the pieces of `split(c)` joined with `c` give back the string, so no fragment is lost |
| Strings.SplitJoin | xsl/cli.py:245 | splitting a join of `c`-free pieces gives back exactly those pieces |
| Strings.BeforeLast | xsl/editor.py:275 | `rsplit('/', 1)[0]` is the prefix before the last `/`, and no `/` follows that one |
| Strings.StripBounds | xsl/cli.py:248 | `strip()` removes exactly the leading and trailing whitespace and keeps an inner part with non-space ends |
| Strings.Before | filex/cli.py:173 | `split(c)[0]` is the longest `c`-free prefix, followed by `c` when shorter than the string |
| Strings.BeforeIsFirstPiece | filex/cli.py:173 | `Before` is the first piece of `Split`, and the second piece is `Before` of what follows the first `c` |
| Strings.RStrip | filex/cli.py:80 | `rstrip(c)` drops exactly the trailing run of `c` |
| Strings.LowerAsciiIdempotent | filex/cli.py:82 | lower-casing twice equals lower-casing once |
| Strings.DecimalRoundTrip | filex/cli.py:280 | the digits `str(i)` writes read back as `i` |
| Base64.CharValue | xsl/utils.py:89 | every 6-bit value has an alphabet character that decodes back to it |
| Base64.SplitJoin | xsl/utils.py:89 | the four 6-bit pieces of three bytes reassemble to those bytes |
| Base64.EncodeLength | xsl/utils.py:89 | `b64encode` emits 4 characters per started 3-byte group |
| Base64.EncodeChars | xsl/utils.py:89 | `b64encode` emits only alphabet characters and `=` |
| Base64.DecodeEncode | xsl/utils.py:58-62 | strict decoding (`validate=True`) inverts encoding on every byte string |
| Base64.DecodeAccepts | xsl/utils.py:58-62 | what strict decoding accepts is whole groups of alphabet and pad characters, and the byte count is 3 per group less the pads |
| Base64.LenientAgreesWithStrict | filex/cli.py:176 | `b64decode` without `validate` decodes every strictly valid string to the same bytes |
| Base64.LenientFromStrict | filex/cli.py:176 | from any position, the lenient state machine appends the strict decoding of the rest |
| Text.EncodeChar | xsl/utils.py:64 | a character encodes to 1 to 4 bytes, and to a single byte exactly when it is ASCII |
| Text.Utf8Append | xsl/utils.py:64 | `encode('utf-8')` distributes over concatenation |
| Text.Utf8Ascii | xsl/utils.py:64 | ASCII text encodes to its own character codes, one byte each |
| Text.DecodeEncodeChar | xsl/utils.py:64 | decoding the first character of an encoding gives back the character and its byte length |
| Text.Utf8RoundTrip | xsl/utils.py:64 | UTF-8 decoding inverts `encode('utf-8')` on every string |
| Text.QuoteBytesChars | xsl/utils.py:94 | `quote` emits only safe characters and `%` (hence no comma and no newline) |
| Text.QuoteSafeText | xsl/utils.py:94 | `quote` leaves text made of safe characters unchanged |
| Text.UnquoteQuote | xsl/utils.py:94 | percent-decoding the output of `quote` gives back the UTF-8 bytes |
| DataUri.Span | xsl/utils.py:14-15 | a character-class run is the longest prefix of that class |
| DataUri.MatchSound | xsl/utils.py:13-19 | a match of `DATA_URI_PATTERN` is a decomposition along the grammar that spells the input |
| DataUri.MatchComplete | xsl/utils.py:13-19 | every decomposition along the grammar is found by the matcher |
| DataUri.MatchIsGrammar | xsl/utils.py:21-30 | the matcher returns a decomposition iff it conforms to the grammar and spells the string |
| DataUri.RejectsWithoutScheme | xsl/utils.py:14 | a string not starting with `data:` (in any case) is not a data URI |
| DataUri.ParseRejectsExactly | xsl/utils.py:48-50 | `parse_data_uri` raises "Invalid data URI" exactly for the strings `is_data_uri` rejects |
| DataUri.ParseGroupsFields | xsl/utils.py:52-73 | mime defaults to `text/plain`; charset keeps `charset=` and defaults to `charset=utf-8`; `is_base64` and `encoding` follow the marker; data is the strict decoding or the raw UTF-8; the only error is a bad base64 payload |
| DataUri.CreatedSpelling | xsl/utils.py:88-94 | `create_data_uri` writes `data:m;charset=c;base64,` + base64, or `data:m;charset=c,` + quoted text |
| DataUri.ParseCreateBase64 | xsl/utils.py:88-90 | for a mime and charset the grammar accepts, parsing the base64 output gives back the bytes, mime and charset |
| DataUri.ParseCreateText | xsl/utils.py:91-94 | the text branch fails exactly when the bytes do not decode; otherwise parsing gives the UTF-8 of the quoted text, not the bytes |
| DataUri.ParseCreateSafeText | xsl/utils.py:91-94 | for text of quote-safe characters, the text branch round-trips to the text's UTF-8 |
| Tree.ElementIds | xsl/editor.py:408-409 | the ids of the element matches: every one is a match, and every element match is among them |
| Tree.ContentEditKeepsShape | xsl/editor.py:387-389 | setting text or an attribute keeps the tree well formed and every parent link |
| Tree.AppendChild | filex/cli.py:253 | `SubElement` adds one node after all others, with the given tag, text and attributes, under the parent |
| Tree.AppendChildIsLast | filex/cli.py:253 | the new node lies below its parent, is its last child, and the tree stays well formed |
| Tree.Detach | filex/cli.py:269 | `parent.remove` leaves the node without a parent |
| Tree.DetachRemovesSubtree | filex/cli.py:267-270 | after detaching, exactly the node and its descendants leave the root's tree |
| Tree.AssignedSpec | filex/cli.py:256-258 | assigning pairs into a dict: a key is present iff some pair names it, with the value of the last such pair |
| Namespaces.SeedSpec | xsl/editor.py:55-60 | the registry starts as `svg`, `xlink`, `html`, `xhtml` in that order, with their W3C namespaces |
| Namespaces.Lookup | xsl/editor.py:342 | `prefix in self.ns` holds iff the prefix is among the registry's keys |
| Namespaces.PutLookup | xsl/editor.py:111 | after `ns[p] = uri`, `p` maps to `uri` and every other prefix is unchanged |
| Namespaces.PutOrder | xsl/editor.py:111 | a new prefix goes last in iteration order; an existing one keeps its place |
| Namespaces.PutDistinct | xsl/editor.py:111 | assignment never duplicates a prefix |
| Namespaces.AbsorbSpec | xsl/editor.py:108-111 | after the `nsmap` loop, a declared prefix maps to its last declared URI, overriding the seed; the default namespace is skipped; other prefixes keep their entries |
| Namespaces.AbsorbKeepsOrder | xsl/editor.py:108-111 | the loop never drops or reorders a prefix |
| XslEditor.RewriteUnchanged | xsl/editor.py:145-148 | the fallback leaves an expression unchanged when it names no registered `prefix:` |
| XslEditor.SetThenResolve | xsl/editor.py:317-345 | a value `set_element_attribute` stores under a name, `_get_attribute` reads back under that name |
| XslEditor.TextSetSpec | xsl/editor.py:387-389 | broadcast text: exactly the matched elements get the new text, and nothing else changes |
| XslEditor.AttrSetSpec | xsl/editor.py:408-419 | broadcast attribute: exactly the matched elements get the key set, and nothing else changes |
| XslEditor.DetectIgnoresContent | xsl/editor.py:236-255 | editing text or attributes never changes the detected file type |
| XslEditor.ExtractOwner | xsl/editor.py:274-281 | the owner path exists exactly for paths ending `/@xlink:href` or `/@href`, and is what precedes the last `/` |
| XslEditor.SetAttributeOnHits | xsl/editor.py:407-421 | the set loop stores under the resolved key on every element match; it reports a modification iff the key exists and some match is an element |
| XslEditor.ElementInfos | xsl/editor.py:433-441 | the listing loop gives exactly the descriptions of the element matches, in order |
| XslEditor.FileEditor.constructor | xsl/editor.py:42-60 | a new editor has no tree and the seeded registry; with `ParseContent` it makes up `__init__`, whose `_load_file` (line 61) always leaves a tree or raises, with the file reading removed |
| XslEditor.FileEditor.ParseContent | xsl/editor.py:95-121 | an lxml parse installs the tree and absorbs the root's declarations; otherwise the fallback tree is installed with the registry untouched, or "Cannot parse file" is raised |
| XslEditor.FileEditor.QuerySpec | xsl/editor.py:123-151 | a query succeeds only with a tree loaded, and reports only nodes of that tree |
| XslEditor.FileEditor.Query | xsl/editor.py:123-151 | `query` raises "No file loaded" without a tree; it passes the registry to lxml, or rewrites each registered prefix in order for the fallback; evaluator errors become "Invalid XPath expression" |
| XslEditor.FileEditor.GetElementText | xsl/editor.py:221-234 | the first match's text when it is an element with non-empty text, `default` otherwise; query errors propagate |
| XslEditor.FileEditor.GetElementAttribute | xsl/editor.py:356-371 | `default` when nothing matches or the resolved value is absent or empty; otherwise the first match's resolved attribute |
| XslEditor.FileEditor.SetElementText | xsl/editor.py:373-390 | False iff nothing matches; otherwise every element match gets the text; errors leave the tree unchanged |
| XslEditor.FileEditor.SetValue | xsl/editor.py:153-170 | the same behaviour as `set_element_text` |
| XslEditor.FileEditor.SetElementAttribute | xsl/editor.py:392-421 | broadcasts under the resolved key; True iff the key exists and some match is an element; an unregistered prefix sets nothing |
| XslEditor.FileEditor.ScanNamesSpec | xsl/editor.py:297-302 | the scan of one element finds an accepted data URI iff one of its candidate attributes holds one |
| XslEditor.FileEditor.ScanHitsSpec | xsl/editor.py:287-302 | the scan over elements finds an accepted data URI iff some candidate attribute of some element holds one |
| XslEditor.FileEditor.FirstDataUri | xsl/editor.py:287-302 | the nested loops return the first accepted value, element by element and attribute by attribute |
| XslEditor.FileEditor.ExtractDataUri | xsl/editor.py:257-315 | `extract_data_uri`: no match; owner re-query for an attribute path; candidates tried with the named attribute first; the first accepted value parsed and tagged with the path; the error cases |
| XslEditor.FileEditor.ExtractSpecSound | xsl/editor.py:283-308 | a reported data URI is the parse of an accepted candidate value of a scanned element; "No data URI found" means no candidate of any scanned element holds one |
| XslEditor.FileEditor.ListElements | xsl/editor.py:423-443 | one description (tag, text, attributes) per element match, in order; string matches are skipped |
| FilexEditor.RemoteRulesDiffer | filex/cli.py:56 | the older editor's remote rule (`startswith('http')`) and the newer one disagree on `ftp://` and on local names starting `http`, and agree on `http(s)://` |
| FilexEditor.NetlocEndOf | filex/cli.py:78 | the network location ends at the first `/`, `?` or `#` |
| FilexEditor.UrlPathOfHttp | filex/cli.py:78 | for `http://host/path?…`, `urlparse(...).path` is `/path` |
| FilexEditor.Name | filex/cli.py:80 | a path's name holds no separator |
| FilexEditor.Suffix | filex/cli.py:80 | a suffix is empty, or a dot followed by at least one character and no further dot or separator |
| FilexEditor.ClassifySpec | filex/cli.py:82-91 | sniffing ignores case; an `<svg` anywhere makes the file svg whatever its suffix; an `xml` file has no svg or html suffix |
| FilexEditor.ParseTree | filex/cli.py:93-113 | lxml's html or xml parser is used when installed and it succeeds; otherwise ElementTree; failure iff both fail |
| FilexEditor.Open | filex/cli.py:50-105 | a fetch failure is raised; otherwise the content is classified and parsed, and an editor holding both is created |
| FilexEditor.FixedNsSpec | filex/cli.py:123-127 | the fixed map is the newer editor's seed without `xhtml` |
| FilexEditor.DecodeDataUri | filex/cli.py:170-185 | the header ends at the first `,` and the mime is the text between its first `:` and the next `;`; `size == decoded_size ==` the lenient decoding's length; every failure becomes the decode error |
| FilexEditor.DecodeCreated | filex/cli.py:170-183 | a URI made by `create_data_uri` with base64 yields its mime, payload and byte count |
| FilexEditor.EntryPathsDistinct | filex/cli.py:280 | the paths `element[i]` of distinct positions differ |
| FilexEditor.FirstEditSpec | filex/cli.py:225-245 | the first-match setters change only the first match, when it is an element, which then reads back the new value |
| FilexEditor.FirstMatchVersusBroadcast | filex/cli.py:225-233 | with two matches, the older editor leaves the second alone where the newer one sets it |
| FilexEditor.ScanUriAttributes | filex/cli.py:155-165 | the attribute loop returns the first of the tried attributes whose value starts with `data:` |
| FilexEditor.FirstDataUriOfSpec | filex/cli.py:155-168 | a value is found iff some tried attribute starts with `data:`, and it is the earliest such |
| FilexEditor.ListHits | filex/cli.py:278-287 | the listing loop computes the listing |
| FilexEditor.SetEach | filex/cli.py:256-258 | the `set` loop leaves exactly the dictionary of the given pairs |
| FilexEditor.ListingSpec | filex/cli.py:273-289 | one entry per match, numbered by position, when all matches are elements; a failure exactly when some match is a string |
| FilexEditor.WithDeclarationSpec | filex/cli.py:303-305 | the output starts with `<?xml` and ends with the serialisation; the declaration is added iff absent, and never twice |
| FilexEditor.FileEditor.constructor | filex/cli.py:50-57 | a new editor records the path, its remoteness, the content, its type and the tree |
| FilexEditor.FileEditor.Find | filex/cli.py:115-132 | NotImplementedError iff lxml is missing; no matches on an ElementTree tree; evaluator errors wrapped |
| FilexEditor.FileEditor.GetElementText | filex/cli.py:204-212 | the first match's text, `""` for none; a string match itself; `""` when nothing matches |
| FilexEditor.FileEditor.GetElementAttribute | filex/cli.py:214-223 | the first element match's attribute under the literal name, `""` otherwise |
| FilexEditor.FileEditor.SetElementText | filex/cli.py:225-233 | True iff something matches; only the first match's text changes, when it is an element |
| FilexEditor.FileEditor.SetElementAttribute | filex/cli.py:235-245 | True iff something matches; only the first match's attribute changes, when it is an element |
| FilexEditor.FileEditor.AddElement | filex/cli.py:247-260 | a new last child of the first match, with the text when non-empty and the attributes; False iff nothing matches |
| FilexEditor.FileEditor.RemoveElement | filex/cli.py:262-271 | the first match leaves its parent; False and no change when nothing matches or it is the root |
| FilexEditor.FileEditor.ExtractDataUri | filex/cli.py:145-185 | only the first match is examined; `href`, `xlink:href`, `src`, `data` are tried in order; the result is decoded or an error |
| FilexEditor.FileEditor.ExtractSpecSound | filex/cli.py:147-168 | a decoded result comes from one of the four attributes of the first match; "No Data URI found" means none holds one |
| FilexEditor.FileEditor.ListElements | filex/cli.py:273-289 | the listing of the matches, or the query's error |
| FilexEditor.FileEditor.Save | filex/cli.py:291-314 | refused for a remote file without an output path; False when lxml is installed but ElementTree built the tree; otherwise writes to the output path or the file, and non-HTML lxml output gains the declaration iff absent |
| FilexEditor.FileEditor.Backup | filex/cli.py:316-323 | refused for a remote file; otherwise `<file>.backup` holding the content as loaded |
| CliParsers.PairsOf | xsl/cli.py:245-247 | one contribution per `,`-fragment, in order |
| CliParsers.ParseAttrs | xsl/cli.py:243-249 | the `--attrs` loop builds the specified dictionary; an absent or empty option gives no attributes |
| CliParsers.AttrsKeys | xsl/cli.py:245-248 | a key is set iff some fragment with `=` has it as its stripped key |
| CliParsers.AttrsLastWins | xsl/cli.py:248 | a key holds the stripped value of the last fragment naming it |
| CliParsers.ParseRender | xsl/cli.py:243-249 | spelling pairs as `k=v,…` and parsing gives back their dictionary |
| CliParsers.PreviewSpec | xsl/cli.py:224-230 | a preview (also used at lines 187-191) has at most 103 characters and keeps the first (up to) 100; it is idempotent; it is the identity exactly on short strings and on 100 characters followed by `...` |
| CliParsers.SliceLength | xsl/cli.py:221 | `elements[:limit]` never has more entries than the list |
| CliParsers.ListAccounting | xsl/cli.py:215-237 | for a non-negative limit: at most `limit` shown; a trailer iff some are hidden; shown plus announced equals total |
| CliParsers.NegativeLimitMiscounts | xsl/cli.py:234-237 | as written, five matches with `--limit -2` show three and announce seven more |
| CliParsers.CorrectedListAccounting | xsl/cli.py:234-237 | the trailer counting the hidden entries accounts for every match whatever the limit, and agrees with the code for non-negative limits |

## Left out

- File and network I/O: reading, `requests.get`, writing, `shutil.copy2`. The content is a parameter (`fetched`, the parser results); `save` and `backup` return the path and the text to be written.
- Parsing, XPath evaluation, CSS selection (`find_by_css`) and serialisation belong to lxml, ElementTree and BeautifulSoup. The trees, the evaluators and the serialised text are parameters.
- XPath results other than elements and strings (numbers, booleans), comments, processing instructions and element tails are not modelled.
- Tag and attribute name validation by lxml (`SubElement`, `set` with an invalid name) is not modelled.
- XslEditor.FileEditor.SetElementText: under lxml, a text holding NUL or a C0 control other than tab, LF or CR raises ValueError ("All strings must be XML compatible"); the model applies the edit.
- XslEditor.FileEditor.SetValue: the same XML-compatibility ValueError on the value is not modelled; the edit is applied.
- XslEditor.FileEditor.SetElementAttribute: the same XML-compatibility ValueError on the value is not modelled; the attribute is set.
- XslEditor.FileEditor.GetElementAttribute: lxml's `get` raises ValueError ("Empty tag name") for the name `""` and for a prefixed name with an empty local part (`xlink:`, `svg:`); the model returns the default instead.
- FilexEditor.FileEditor.SetElementText: the XML-compatibility ValueError on the text is not modelled; the edit is applied.
- FilexEditor.FileEditor.SetElementAttribute: the XML-compatibility ValueError on the value is not modelled; the attribute is set.
- FilexEditor.FileEditor.AddElement: a text or attribute value that is not XML compatible raises after `SubElement` has already appended the empty child, leaving a partial edit; the model appends the complete child and returns True.
- FilexEditor.FileEditor.GetElementAttribute: lxml's `get` raises ValueError ("Empty tag name") for the name `""`; the model returns `""`.
- `args.text or ""` (xsl/cli.py:251) only maps a missing `--text` to `""`, and it is not modelled as a separate member.
- The `save` and `backup` methods of xsl/editor.py only copy and write files; they are not part of this model.
- `save_data_uri_to_file` of filex/cli.py writes a file; it is not part of this model.
- Printing, argparse, the interactive shells and the HTTP servers are not part of this model.
- Exception message texts are kept only where a caller can see them: "No file loaded", "Invalid XPath expression", "Cannot parse file". Other messages become constructors of an error datatype.
- `add_element` and `remove_element` in xsl/cli.py are called on the xsl/editor.py `FileEditor`, which defines neither method. The `--attrs` parser is modelled up to the `add_element` call.
- DataUri.EqualsIgnoreCase: IGNORECASE is modelled for ASCII only. Python also folds a few non-ASCII letters (U+017F, U+0131, U+0130, U+212A) onto ASCII ones.
- Base64.Decode follows CPython 3.11 and later, where `validate=True` uses strict mode. Earlier versions also accept extra `=` after complete groups.
- Base64.LenientDecode: the non-strict decoder models what `b64decode` accepts and returns. It does not produce error messages.
- FilexEditor.UrlPath: `urlsplit`'s removal of control characters and its IPv6 bracket checks are not modelled. The path rule covers the schemes that use `;` parameters.
- FilexEditor.Suffix: `pathlib` normalisation (`.` components, repeated separators, Windows drives) is not modelled beyond trailing separators.
- FilexEditor.FileEditor.Backup: `str(Path(p))` is taken to be `p` itself, without normalisation.
- FilexEditor.FileEditor.Save: the default path `str(self.file_path)` is likewise taken to be the path as given, without `pathlib` normalisation.
- Text.Utf8: a Python `str` may hold lone surrogates, on which `encode('utf-8')` and `bytes.decode` raise; a Dafny `char` cannot hold one, so that error is not modelled.
- DataUri.Create: the defaults of `create_data_uri` (`mime='application/octet-stream'`, `charset='utf-8'`, `base64_encode=True`, xsl/utils.py:75-76) are not modelled; every call passes all three arguments.
- XslEditor.FileEditor.Attribute: it returns nothing for an id outside the tree. A sound evaluator never reports such an id.
- XslEditor.FileEditor.ListElements: for string matches, lxml's smart strings know their owner via `getparent`, and `hasattr(elem, 'attrib')` is false for them. They are skipped, as in the source; owner information is not modelled.
- FilexEditor.FileEditor.ListElements: the path is `element[i]`, because the lxml element (not an ElementTree) has no `getpath`. A string match fails with `NotAnElement` where Python raises on `.tag`.
- FilexEditor.FileEditor.Save: the write's own failure (which returns False) is I/O and is not modelled.

## Findings

| source | as written | input that shows it | evidently intended | confidence | as-written member | corrected member |
|---|---|---|---|---|---|---|
| xsl/cli.py:234-237 | the trailer announces `len(elements) - limit` more entries, while `elements[:limit]` with a negative limit shows `len + limit` of them | 5 matches with `--limit -2`: 3 shown, "... and 7 more" | the trailer counts the entries not shown (here 2) | medium, not executed | CliParsers.NegativeLimitMiscounts | CliParsers.CorrectedListAccounting |
