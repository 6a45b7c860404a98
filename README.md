# Node Farm product server — Dafny model

`Node_Farm_Project/index.js` is a small HTTP server for a product catalog. It has
an overview page, a page per product, a JSON API, and static files from the
`public`, `images` and `html` folders. Without the I/O, three pieces of string
logic remain, and this project models and proves them:

- **Template substitution** (`strings.dfy`, `template.dfy`). `replaceTemplate`
  rebinds `output` through eight global `String.prototype.replace(/{%TOKEN%}/g, value)`
  calls, in the order PRODUCTNAME, IMAGE, PRICE, ORIGIN, DESCRIPTION, ID,
  RATING, REVIEWS. `Strings.ReplaceAll` models one such call. It scans left
  to right and never rescans inserted text. It also applies JavaScript's
  replacement patterns for a pattern with no capture groups: `$$`, `$&`,
  `` $` `` and `$'`. `Template.Render` is the eight passes composed, and
  `Template.ReplaceTemplate` is the source's imperative form, proved equal to
  it. The overview page joins one card per product and substitutes the result
  for every `{%PRODUCT_CARDS%}` (`Template.Cards`, `Template.OverviewPage`).
- **MIME resolution** (`mime.dfy`). `getMimeType` takes the extension the way
  Node's POSIX `path.extname` does. Trailing `/` characters are ignored. The
  extension runs from the last `.` of the final segment. A segment with no
  dot, a segment whose last dot is its first character, and the segment `..`
  have no extension. The extension is lower-cased and looked up in the
  ten-entry table. Anything else gives `application/octet-stream`.
- **Routing** (`product_id.dfy`, `router.dfy`). `Router.Classify` is the
  handler's if/else chain. `ProductId.CheckId` is the id check on line 83
  and the lookup on line 85. `Router.Handle` is the whole handler with the
  response written as a value, `Served(Response(status, content type, body))`.
  It is `Thrown` when the handler would raise an uncaught exception once the
  URL is parsed.

The runtime services the handler calls are fields of a `Host` value, because
their internals are not part of this code. They are `fs.readFile` (`None` when
the read fails), `decodeURIComponent` (`None` when it throws) and JavaScript's
string-to-number conversion for strings that are not plain digits (`None` for
`NaN`). The startup state is a `Site` value: the catalog, its JSON text and the
three templates.

How the product id is checked: the query value is a string. `id >= 0` and
`id < dataObj.length` convert it to a number, but `dataObj[id]` indexes with the
string itself. A string of digits is converted inside the model. It names a
product only in canonical decimal form (`"0"`, `"1"`, …, no leading zero), and
`ProductId.CanonicalRoundTrip` and `ProductId.DecimalString` prove that such
strings correspond one to one with the indices. An id that passes the check
but is not canonical, such as `"01"`, `"1.5"` or `" 1"`, makes `dataObj[id]`
undefined. `replaceTemplate` then throws, so such a request crashes the
server, and the model gives `Thrown`.

## Model

| member | source | states |
|---|---|---|
| Strings.ReplaceAll | Node_Farm_Project/index.js:31-38 | one `replace(/token/g, value)` call, with JavaScript's `$` patterns; its behaviour is stated by ReplaceAllIsJoin, ReplaceAllAbsent and ReplaceAllWhole |
| Strings.ReplaceAllIsJoin | Node_Farm_Project/index.js:31-38 | a global replacement by `$`-free text is the split pieces of the input joined with the replacement, so every occurrence is replaced and nothing else changes |
| Strings.JoinSplit | Node_Farm_Project/index.js:31-38 | joining the pieces back with the token gives the original text, so the non-token text keeps its order |
| Strings.SplitPiecesTokenFree | Node_Farm_Project/index.js:31-38 | no piece between replaced occurrences still contains the token, so the `/g` replacement misses none |
| Strings.ReplaceAllAbsent | Node_Farm_Project/index.js:31-38 | text without the token is returned unchanged, whatever the replacement |
| Strings.ReplaceAllWhole | Node_Farm_Project/index.js:31-38 | a text that is exactly the token becomes the `$`-free replacement, which is not rescanned even if it holds the token |
| Strings.ExpandPlain | Node_Farm_Project/index.js:31-38 | a replacement without `$` is inserted verbatim |
| Strings.RemoveFirst | Node_Farm_Project/index.js:122-124 | `replace(prefix, '')` with a string pattern leaves text without the pattern as it is, otherwise shortens it by one occurrence, and a text starting with the pattern loses exactly that prefix |
| Strings.ContainsFirst | Node_Farm_Project/index.js:122-124 | a text holding the pattern holds it at a first position |
| Strings.RemoveFirstAt | Node_Farm_Project/index.js:122-124 | the text before the first occurrence and the text after it are kept, and only that occurrence is removed |
| Strings.RemoveFirstOccurrence | Node_Farm_Project/index.js:122-124 | a text holding the pattern becomes its part before the first occurrence followed by its part after that occurrence |
| Template.ReplaceTemplate | Node_Farm_Project/index.js:27-41 | the eight reassignments of `output` compute exactly the eight passes composed in source order |
| Template.Render | Node_Farm_Project/index.js:27-41 | the eight passes in source order, with `/images/` before the image name; its behaviour is stated by RenderPlain, RenderToken and RenderFieldVerbatim |
| Template.ApplyAllAbsent | Node_Farm_Project/index.js:28-40 | text containing none of the passes' tokens goes through every pass unchanged |
| Template.ApplyAllToken | Node_Farm_Project/index.js:28-40 | a placeholder alone is untouched by earlier passes, becomes its value in its own pass, and the value then goes through the later passes only |
| Template.TokensDoNotNest | Node_Farm_Project/index.js:31-38 | no one of the eight placeholders occurs inside another |
| Template.RenderPlain | Node_Farm_Project/index.js:27-41 | a template with none of the eight placeholders is returned unchanged |
| Template.RenderToken | Node_Farm_Project/index.js:31-38 | the k-th placeholder renders as the k-th field value run through the later passes: a later placeholder inside an earlier field is substituted, and no pass rescans its own inserted text |
| Template.RenderFieldVerbatim | Node_Farm_Project/index.js:31-38 | a field value free of `$` and placeholders is copied byte for byte, and the image placeholder becomes `/images/` followed by the image name |
| Template.Cards | Node_Farm_Project/index.js:71-73 | `map` then `join('')` over the catalog; its behaviour is stated by CardsAppend, CardsInOrder and CardsOfPlainTemplate |
| Template.CardsAppend | Node_Farm_Project/index.js:71-73 | the cards of two catalog parts are the cards of each part, concatenated |
| Template.CardsInOrder | Node_Farm_Project/index.js:71-73 | product i's card follows the cards of the products before it and precedes those after it |
| Template.CardsOfPlainTemplate | Node_Farm_Project/index.js:71-73 | with a placeholder-free card template, the cards are that template repeated once per product |
| Template.OverviewPage | Node_Farm_Project/index.js:75 | the cards put in place of every `{%PRODUCT_CARDS%}`; its layout is stated by OverviewLayout |
| Template.OverviewLayout | Node_Farm_Project/index.js:75 | the overview page is the overview template's text around `{%PRODUCT_CARDS%}`, in order, with all the cards wherever the placeholder was |
| Mime.LowerChar | Node_Farm_Project/index.js:45 | an ASCII capital becomes its lower-case letter and every other character is kept |
| Mime.Lower | Node_Farm_Project/index.js:45 | lower-casing keeps the length and maps each character through the ASCII lower-case map |
| Mime.SegmentExt | Node_Farm_Project/index.js:45 | the extension of a final segment is empty exactly when its last dot is missing or first or the segment is `..`, and otherwise is the suffix from its last dot |
| Mime.SegmentExtEmpty | Node_Farm_Project/index.js:45 | a segment has no extension exactly when it has no dot, its only dot is its first character, or it is `..` |
| Mime.ExtName | Node_Farm_Project/index.js:45 | the extension is empty or starts with a dot and holds no other dot and no slash; which one it is for a given path is stated by ExtNameOfSegment |
| Mime.ExtNameOfSegment | Node_Farm_Project/index.js:45 | the extension of `dir/seg` followed by any number of `/` is the extension of the final segment `seg` |
| Mime.ExtNameOfFile | Node_Farm_Project/index.js:45 | for `dir/stem.ext` the extension is `.ext`, whatever the directory |
| Mime.ExtNameLower | Node_Farm_Project/index.js:45 | taking the extension and lower-casing commute |
| Mime.TableEntry | Node_Farm_Project/index.js:46-57 | the ten-entry extension table; its properties are stated by ContentTypeOf and ContentTypeJpeg |
| Mime.ContentTypeOf | Node_Farm_Project/index.js:46-58 | the lookup is total, yields a listed content type or the default, and yields the default exactly when the extension is not in the table |
| Mime.ContentTypeJpeg | Node_Farm_Project/index.js:51-52 | exactly `.jpg` and `.jpeg` map to `image/jpeg` |
| Mime.MimeType | Node_Farm_Project/index.js:44-59 | the content type sent is always one of the table's nine content types or the default |
| Mime.MimeTypeJpeg | Node_Farm_Project/index.js:45-52 | a file name gets `image/jpeg` exactly when its lower-cased extension is `.jpg` or `.jpeg` |
| Mime.MimeTypeIgnoresCase | Node_Farm_Project/index.js:45 | file names equal up to ASCII case get the same content type |
| Mime.MimeTypeJpg | Node_Farm_Project/index.js:44-59 | `a.jpg` is sent as `image/jpeg` |
| Mime.MimeTypeJpgAnyCase | Node_Farm_Project/index.js:44-59 | `a.JPG` and `a.jpg` resolve identically, to `image/jpeg` |
| Mime.MimeTypeStylesheet | Node_Farm_Project/index.js:44-59 | `/public/css/style.css` is sent as `text/css` |
| Mime.MimeTypeHidden | Node_Farm_Project/index.js:44-59 | for every directory and trailing slashes, a name whose only dot starts it has no extension and gets `application/octet-stream` |
| Mime.MimeTypeNoDot | Node_Farm_Project/index.js:44-59 | for every directory and trailing slashes, a name without a dot has no extension and gets `application/octet-stream` |
| Mime.MimeTypeDotFile | Node_Farm_Project/index.js:44-59 | `/html/.htaccess` is sent as `application/octet-stream`, as an instance of MimeTypeHidden |
| ProductId.DecimalString | Node_Farm_Project/index.js:85 | the decimal form of an index is canonical and denotes that index |
| ProductId.CanonicalRoundTrip | Node_Farm_Project/index.js:85 | a canonical decimal string is the decimal form of its own value, so canonical strings and indices correspond one to one |
| ProductId.LooseNumber | Node_Farm_Project/index.js:83 | the number the comparisons `id >= 0` and `id < dataObj.length` see: a digit string's decimal value, any other string's host conversion (`None` for `NaN`) |
| ProductId.PassesCheck | Node_Farm_Project/index.js:83 | `id && id >= 0 && id < dataObj.length`: the id is present, not empty, and its number is neither `NaN` nor outside `[0, length)` |
| ProductId.PassesCheckDigits | Node_Farm_Project/index.js:83 | a non-empty digit string passes the check exactly when its value is below the catalog size |
| ProductId.CheckId | Node_Farm_Project/index.js:81-91 | a product is selected exactly when the id is a canonical decimal below the catalog size, and then its index is in range; the id is rejected exactly when line 83's check fails; it names no product exactly when the check passes on a non-canonical id |
| ProductId.CheckIdAccepts | Node_Farm_Project/index.js:83-85 | every catalog index written in decimal selects that product |
| ProductId.CheckIdRejectsOutOfRange | Node_Farm_Project/index.js:83 | an id whose number is `NaN`, negative or at least the catalog size is rejected |
| ProductId.CheckIdLeadingZero | Node_Farm_Project/index.js:83-85 | an in-range digit string with a leading zero passes the check but names no product |
| Router.Classify | Node_Farm_Project/index.js:68-157 | exactly one of the seven branches is taken, each exactly when its path test holds, and an image path is its prefix followed by the rest that is kept |
| Router.StaticFile | Node_Farm_Project/index.js:104-114 | a readable file gives 200 with the MIME type of its path and its bytes; an unreadable one gives 404 with the plain-text message |
| Router.ReadRejects | Node_Farm_Project/index.js:127 | the paths `fs.readFile` refuses with a synchronous throw: those holding a NUL character |
| Router.ReadPath | Node_Farm_Project/index.js:102-144 | a path is read exactly for the public and html branches and for an image path whose rest decodes; it is the pathname or `/images/` followed by the decoded rest |
| Router.Handle | Node_Farm_Project/index.js:62-161 | every response is 200 or 404; the handler throws exactly for a product id that passes line 83's check but is not canonical decimal, for an image path that cannot be decoded, or when the path it reads holds a NUL character; a 200 product page is the product template rendered with the catalog entry whose decimal index is the id |
| Router.OverviewServed | Node_Farm_Project/index.js:68-77 | `/` and `/overview` give 200 HTML with the overview page of the whole catalog |
| Router.ProductServed | Node_Farm_Project/index.js:80-87 | `/product?id=i` for each catalog index gives 200 HTML with product i rendered |
| Router.ProductNotFound | Node_Farm_Project/index.js:81-91 | a missing, empty, `NaN`, negative or too large id gives 404 with the not-found template |
| Router.ApiServed | Node_Farm_Project/index.js:95-98 | `/api` gives 200 `application/json` with the catalog's JSON text |
| Router.PublicServed | Node_Farm_Project/index.js:101-115 | a public path holding NUL throws; otherwise a readable file is sent with its path's MIME type, else 404 "404 - File not found" |
| Router.ImageServed | Node_Farm_Project/index.js:118-137 | an image path loses its prefix once and is decoded; a decoded name holding NUL (`/images/%00.png`) makes the read throw; otherwise it is looked up under `/images/`, with 404 "404 - Image not found" when unreadable |
| Router.HtmlServed | Node_Farm_Project/index.js:141-154 | an html path holding NUL throws; otherwise a readable file is sent as UTF-8 HTML, else 404 `text/html` with the not-found template |
| Router.UnknownNotFound | Node_Farm_Project/index.js:157-160 | any other path gives 404 with the not-found template |

## Left out

- Server creation, `res.writeHead` and `res.end`, `server.listen` and the console message are I/O. A response is modelled as a returned value.
- Startup reads of the catalog and templates (`fs.readFileSync`) and `JSON.parse` are not modelled. The `Site` value stands for their result. A failed read at startup stops the process before any request.
- `JSON.stringify(dataObj)` is not modelled. `Site.catalogJson` is taken as given, and nothing ties it to `Site.catalog`.
- URL parsing (`new URL`, `searchParams`, `Object.fromEntries`) is not modelled. The handler receives the pathname and the last `id` value.
- Router.Handle: `new URL` throws on a request whose Host header makes an invalid base URL (such as `Host: a b`). That happens before routing and is not modelled, so `Thrown` covers only the exceptions raised after the URL is parsed.
- `decodeURIComponent` and the conversion of non-digit strings to numbers are `Host` parameters. A failed decode throws, and the model gives `Thrown`. That conversion is consulted only for strings that are not all digits.
- `fs.readFile` is the `Host.readFile` parameter, and its callback runs within the same modelled request. Its synchronous throw on a path holding a NUL character is modelled (`Router.ReadRejects`); after URL parsing a raw NUL can reach it only through the decoded image name. Any other synchronous throw of `fs.readFile` is not modelled.
- `path.join` with the server directory is not modelled. A file path is the pathname itself (public, html) or `/images/` followed by the decoded rest. Normalisation could change the extension only when the final segment is `.` or `..`. For example, `/images/a.png%2Fb%2F..` decodes to `a.png/b/..`, which `path.join` turns into `…/images/a.png` (`image/png`). The model looks up the path as it stands, whose final segment `..` has no extension, and sends `application/octet-stream`. The path could leave the folder through `..` segments after decoding, and the code has no containment check.
- Mime.Lower: only ASCII letters are lower-cased. JavaScript's `toLowerCase` also maps other characters, but none of them maps to a table extension.
- Product fields are the text that JavaScript's string conversion gives for each catalog value. Number formatting is not modelled.
- Digit strings are compared by their exact value. JavaScript rounds very long ones, but that cannot change a comparison with a catalog size below 2^32.
- The product page's response headers are sent before the body. An exception in rendering therefore occurs after the 200 header is written. The model reports `Thrown` and does not model a partial response.
- Concurrency between requests: the handler shares no mutable state.
