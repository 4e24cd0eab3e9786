# News API query routes, modelled in Dafny

The service answers GET requests over a fixed, ordered sequence of news
articles loaded once at start-up and never changed. Each article has six
string fields: category, headline, authors, link, short description and date.
There are seven routes:

- `/news` lists every article;
- `/news/random` returns the article at `floor(Math.random() * length)`;
- `/news/by-id/:id` returns the article at position `parseInt(id, 10) - 1`, or 404;
- `/news/by-date/:date`, `/news/by-category/:category` and `/news/by-author/:author`
  return the articles whose field equals the parameter, or 404 when none does;
- `/news/by-author-partial/:partialAuthor` returns the articles whose lower-cased
  `authors` contains the lower-cased parameter, or 404 when none does.

The model has three modules:

- `JsString` (`js_string.dfy`) holds the JavaScript string semantics the routes
  rely on. `ParseInt` is `parseInt(s, 10)`: it skips ECMAScript white space,
  takes one optional sign, then the longest run of ASCII digits; it gives `None`
  (NaN) when there are no digits. `Lower` is `toLowerCase` over ASCII letters.
  `Contains` is `includes`, with `IndexOf` as a verified left-to-right search
  for it.
- `NewsApi` (`news_api.dfy`) holds the `Article` record, the `Response` sent
  back, and one pure function per route. The dataset is an explicit parameter
  `news: seq<Article>`. `Response` has four cases: `OkOne` (a JSON object),
  `OkMany` (a JSON array), `OkUndefined` (`res.json(undefined)`, a 200 with an
  empty body) and `NotFound` (the 404 with a plain-text message). Each
  filtering route passes a `Query` to `Filter`, the model of `Array.prototype.filter`.
  Its result is characterised by `MatchPositions`: the matching positions in
  increasing order.
- `NewsApiProperties` (`news_api_properties.dfy`) holds the lemmas that relate
  several calls or routes, plus worked examples over a two-article dataset.

Two behaviours of the code are easy to miss; the model follows the code:

- An empty dataset is not guarded on the random route. `news[0]` is then
  `undefined` and Express sends an empty 200. The model returns `OkUndefined`
  and does not return a 404.
- The id is not checked to be an integer. `parseInt` accepts a numeric prefix,
  so `"2abc"` and `"2.9"` both find article 2, and `"007"` finds article 7
  (`ParseIntNumeral`).

## Model

| member | source | states |
|---|---|---|
| `JsString.IsJsWhiteSpace` | app.js:141 | the white space parseInt skips: exactly ECMAScript's StrWhiteSpaceChar code points; TrimStart and ParseIntSkipsWhiteSpace state what skipping them means |
| `JsString.TrimStart` | app.js:141 | parseInt's first step drops exactly the longest white-space prefix: every dropped character is ECMAScript white space, and what is kept does not start with white space |
| `JsString.TrimStartIsSuffix` | app.js:141 | what the trimming keeps is a suffix of the id |
| `JsString.DigitPrefixLength` | app.js:141 | the digits parseInt reads form the longest all-digit prefix: all digits, followed by the end or by a non-digit |
| `JsString.ToDecimal` | app.js:140 | the decimal numeral a client writes for id n is non-empty, all digits, denotes n, and has no leading zero unless it is "0" |
| `JsString.DigitsValue` | app.js:141 | the value of a run of decimal digits, most significant first; ToDecimal and ParseIntToDecimal show it inverts the decimal numeral |
| `JsString.ParseDigits` | app.js:141 | the digits part of parseInt: NaN without a leading digit, otherwise the value of the leading digit run (ParseDigitsParts, ParseDigitsNumeral) |
| `JsString.ParseDigitsParts` | app.js:141 | a digits part that gives m splits its input into a non-empty digit run of value m and a rest that does not start with a digit |
| `JsString.ParseDigitsNumeral` | app.js:141 | the digits part of parseInt reads a numeral up to the first non-digit and gives the value of the numeral |
| `JsString.ParseInt` | app.js:141 | `parseInt(id, 10)` with None for NaN; ParseIntParts and ParseIntOfParts characterise it in both directions |
| `JsString.ParseIntSignParts` | app.js:141 | a number comes from white space, at most one sign, and a digits part, whose value the sign applies to |
| `JsString.ParseIntParts` | app.js:141 | only if: parseInt gives v only for white space, at most one sign, a non-empty digit run d and a rest that does not start with a digit, with v the signed value of d |
| `JsString.ParseIntAfterWhiteSpace` | app.js:141 | leading white space of any length never changes the parse |
| `JsString.ParseIntSigned` | app.js:141 | at most one sign before a digit applies that sign to the value of the digits |
| `JsString.ParseIntOfParts` | app.js:141 | if: white space, at most one sign and a string starting with a digit parse to the signed value of the digits part |
| `JsString.ParseIntBadStart` | app.js:141 | a string whose first character is not white space, a sign or a digit parses to NaN |
| `JsString.ParseIntSignWithoutDigit` | app.js:141 | a sign not followed by a digit parses to NaN |
| `JsString.ParseIntRejectsScenario` | app.js:141 | "abc1", "+-1" and "- 1" parse to NaN |
| `JsString.ParseIntUnsigned` | app.js:141 | a string that starts with a digit parses to the value of its leading digits |
| `JsString.ParseIntNumeral` | app.js:141 | a numeral followed by anything that does not start with a digit (leading zeros, "3abc", "1.5") parses to the numeral's value |
| `JsString.ParseIntNegative` | app.js:141 | a '-' before a digit negates the value of the digits |
| `JsString.ParseIntPlus` | app.js:141 | a '+' before a digit is dropped |
| `JsString.ParseIntToDecimal` | app.js:141 | parseInt inverts the decimal numeral: ParseInt(ToDecimal(n)) == Some(n) |
| `JsString.ParseIntSkipsWhiteSpace` | app.js:141 | a leading white-space character never changes the parse |
| `JsString.ParseIntNoDigits` | app.js:141 | a string without any decimal digit parses to NaN (None) |
| `JsString.Lower` | app.js:332-333 | `toLowerCase` over ASCII letters: LowerChar applied to every character; LowerIdempotent and LowerOfUpper state its laws |
| `JsString.LowerChar` | app.js:332 | lower-casing a character gives no upper-case letter; it maps 'A'..'Z' to 'a'..'z' and leaves every other character alone |
| `JsString.LowerIdempotent` | app.js:332-333 | lower-casing twice is lower-casing once |
| `JsString.LowerOfUpper` | app.js:332-333 | upper-casing first does not change the lower-cased form |
| `JsString.Contains` | app.js:333 | `includes`: the needle occurs at some position; IndexOf decides it and ContainsEmpty, ContainsSelf state its laws |
| `JsString.ContainsEmpty` | app.js:333 | every string includes the empty string |
| `JsString.ContainsSelf` | app.js:333 | every string includes itself |
| `JsString.IndexOf` | app.js:333 | the search returns the first position where the needle occurs, or -1 exactly when `includes` is false |
| `NewsApi.Matches` | app.js:190-333 | the four arrow predicates passed to filter: date equality (190), category equality (237), authors equality (285) and lower-cased authors including the lower-cased query (333); the route lemmas state each |
| `NewsApi.Filter` | app.js:190 | filter never lengthens its input |
| `NewsApi.FilterMembership` | app.js:190 | filter keeps only matching articles of the input and drops none of the matching ones |
| `NewsApi.MatchPositions` | app.js:190 | the positions of the matches are strictly increasing and in range |
| `NewsApi.MatchPositionsMembership` | app.js:190 | a position is among the match positions exactly when its article matches |
| `NewsApi.FilterSelectsMatches` | app.js:190 | filter's result is the ordered subsequence of matches: its j-th element is the article at the j-th matching position |
| `NewsApi.FilterRoute` | app.js:190-195 | a filtering route answers 404 exactly when no article matches; otherwise it sends the non-empty ordered subsequence of matches, each an article of the dataset that matches |
| `NewsApi.ListAll` | app.js:68-70 | the listing is the whole dataset: same length, same order |
| `NewsApi.RandomIndex` | app.js:100 | floor(draw * n) with 0 <= draw < 1 is a valid index when n > 0, and 0 when n == 0 |
| `NewsApi.RandomNews` | app.js:99-102 | on a non-empty dataset the random route returns one of its articles; on an empty one it sends undefined |
| `NewsApi.ById` | app.js:140-147 | the id route finds an article exactly when the parsed id k has 1 <= k <= length, and that article is news[k - 1]; otherwise it is 404 |
| `NewsApi.ByDate` | app.js:189-196 | 404 exactly when no article's date equals the parameter; otherwise a non-empty array of exactly the articles with that date, in order |
| `NewsApi.ByCategory` | app.js:236-243 | 404 exactly when no article's category equals the parameter; otherwise a non-empty array of exactly the articles of that category, in order |
| `NewsApi.ByAuthor` | app.js:283-291 | 404 exactly when no article's authors equals the parameter (case-sensitive); otherwise exactly those articles, in order |
| `NewsApi.ByAuthorPartial` | app.js:331-339 | 404 exactly when no lower-cased authors contains the lower-cased parameter; otherwise exactly those articles, in order |
| `NewsApiProperties.ByIdParsed` | app.js:140-146 | once the id has parsed to k, the answer is news[k - 1] for 1 <= k <= length and 404 for every other k |
| `NewsApiProperties.ByIdDecimal` | app.js:140-146 | id n written in decimal finds news[n - 1] when 1 <= n <= length; 0, length + 1 and every other n give 404 |
| `NewsApiProperties.ByIdNegative` | app.js:141-146 | a '-' followed by digits (a negative id, "-0" included) gives 404 |
| `NewsApiProperties.ByIdNonNumeric` | app.js:141-146 | an id with no digit gives 404 (NaN fails the range check) and never an out-of-range access |
| `NewsApiProperties.RandomNewsReachesEveryArticle` | app.js:99-102 | every article is returned for some draw: draw k / length picks article k |
| `NewsApiProperties.FilterAll` | app.js:333 | filtering with a predicate every article satisfies returns the dataset unchanged |
| `NewsApiProperties.PartialEmptyQueryListsAll` | app.js:331-339 | the empty partial query matches every article: it lists the whole dataset, or is 404 on an empty one; a fact about the handler, since no request carries an empty segment |
| `NewsApiProperties.PartialIgnoresQueryCase` | app.js:332-333 | under the model's ASCII case folding, the partial route gives the same answer for a query and for its upper- or lower-cased form |
| `NewsApiProperties.ExactAuthorWithinPartial` | app.js:283-339 | every position the exact-author query matches, the partial query with the same parameter matches too |
| `NewsApiProperties.ExactAuthorFoundByPartial` | app.js:283-339 | whenever the exact-author route finds articles, the partial route with the same parameter does not answer 404 |
| `NewsApiProperties.CategoryScenario` | app.js:236-243 | on the two-article dataset, "tech" returns the first article only and "music" is 404; the date filter picks the second |
| `NewsApiProperties.ExactAuthorScenario` | app.js:283-291 | "jane doe" does not find the "Jane Doe" article; "Jane Doe" does |
| `NewsApiProperties.PartialAuthorScenario` | app.js:331-339 | the partial query "jane" finds the "Jane Doe" article |
| `NewsApiProperties.PartialAuthorUpperScenario` | app.js:331-339 | the partial query "DOE" finds the "Jane Doe" article |
| `NewsApiProperties.ByIdScenario` | app.js:140-147 | on the two-article dataset, id "2" finds the second article; "3", "0" and "abc" are 404 |

## Left out

- Express set-up, CORS, static files, body parsing and `app.listen` (app.js:8-11, 31, 34, 343-345): these are HTTP plumbing over libraries that are not part of this model.
- The Swagger/OpenAPI configuration and UI (app.js:13-28) and the `@openapi` comment blocks: they are documentation tooling.
- Loading `./newslight` (app.js:37): that file is not part of this model. The dataset is an arbitrary `seq<Article>` parameter. Because it is never mutated, every route is a function of its inputs: repeating a request to any route but `/news/random` gives the same answer, and the random route is a function of its draw, which `Math.random()` makes afresh for every request (app.js:100).
- `decodeURIComponent` (app.js:284, 332) is not modelled: the decoded parameter is the input. The model therefore also leaves out the `URIError` this second decoding throws when a parameter holds a stray '%'. Express would turn that error into a 500.
- Response serialisation: `res.json` and `res.status(404).send` are the `Response` cases. The text of the 404 messages is not modelled.
- RandomNews: `Math.random()` is the parameter `draw`, restricted to the range that `Math.random` promises. `draw * length` is computed over exact reals, not IEEE doubles.
- ParseInt: the value is an unbounded integer. JavaScript rounds numerals above 2^53 to a double and gives Infinity for very long ones. The range check at app.js:142 comes out the same either way for any dataset shorter than 2^53, and the model does not distinguish -0 from 0.
- PartialIgnoresQueryCase: holds only under the ASCII folding of Lower and Upper. With JavaScript's full case mapping `"ß".toUpperCase()` is `"SS"`, which lower-cases to `"ss"`, so an author "Strauß" is found by the query "ß" but not by "SS" (app.js:332-333).
- Strings: a Dafny `string` is a sequence of Unicode scalar values, while a JavaScript string is a sequence of UTF-16 code units. `===` and `includes` agree on well-formed text, but strings holding lone surrogates cannot be represented.
- Lower: only ASCII 'A'..'Z' are folded. Full Unicode `toLowerCase`, with its context-dependent and length-changing mappings, is not modelled.
