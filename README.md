# A model of a small Flask bulletin board

The board exists in two versions. The earlier one is `source/app.py`: an anonymous board. The newer one is `trans-bbs/source/app.py`: it adds a shared-password login and syntax-highlighted code snippets. Both keep their posts in memory, as a module-level list with an id counter. Both list the posts newest first. Both render messages through the same `nl2br` template filter.

This project models three things:

- **The filter** (`sanitizer.dfy`, module `Sanitizer`). The filter is identical in both versions. Its steps are modelled literally, as two recursive functions, `Escape` and `Replace`, and `Passes`, which chains `Replace` three times:
  - markupsafe's `escape`, one character at a time: `&`, `<`, `>`, `"` and `'` become `&amp;`, `&lt;`, `&gt;`, `&#34;` and `&#39;`;
  - Python's left-to-right, non-overlapping `str.replace`;
  - the three chained passes over `\r\n`, `\r` and `\n`.
  
  An independent one-pass reading (`Reading`) is proved equal to the three passes. The other properties come from that reading: plain text is escaped, no `\r` survives, the output never holds raw markup, and each kind of line ending has its own shape. The break marker is a parameter (`Nl2brWith`). The board's own filter (`Nl2br`) inserts the marker the source actually produces. `escape` returns a `Markup`, and `Markup.replace` escapes a plain-`str` argument, so the text inserted is `&lt;br&gt;\n` rather than the `<br>\n` written in the source.
- **The login gate** (`session_gate.dfy`, module `SessionGate`):
  - `login_required` is a function. It either lets a request through or answers with a redirect to the login page, with `next` set to the requested URL.
  - `login` is a pure transition of the session's `logged_in` flag, then a method on a `Session` class that holds that flag. `logout` is also a method on that class.
  - The password is a parameter. Flashed messages and redirects are part of the handler's result value.
- **The post stores**, one class per version (`trans_bbs.dfy` holds module `TransBbs`; `simple_bbs.dfy` holds module `SimpleBbs`):
  - Each class holds the `posts` list and `post_id_counter`.
  - Its invariant: the counter equals the number of records, and the record at position `i` has id `i + 1`.
  - `Submit` is the body of `post()`. For the newer board, `PostRoute` puts the login gate in front of it. The earlier board's `Submit` itself returns the redirect to `/`, using the same answer values as the login gate.
  - `Index` is `reversed(posts)`. Ids are therefore listed in strictly decreasing order.
  - Pygments is modelled only as two parameters of the store: the highlighting function and the set of lexer names it knows.

`common.dfy` (module `Common`) holds what the modules share: Python truthiness of an optional form field, the "名無しさん" fallback for an empty name, and `reversed` as a function on sequences.

Three behaviours of the code that the model keeps as written:
- Acceptance does not trim. A message of spaces is stored.
- A `\r\n` gives two breaks, not one (see Findings).
- The break arrives escaped (see Findings).

## Model

| member | source | states |
|---|---|---|
| Common.DisplayName | trans-bbs/source/app.py:70-90 | The stored name is never empty. It is the submitted name when that is non-empty; for a missing or empty field it is "名無しさん". |
| Common.NewestFirst | trans-bbs/source/app.py:62 | `reversed`: same length, and position `i` holds the element at position `len - 1 - i`. |
| Sanitizer.EscapeChar | trans-bbs/source/app.py:29 | The five markup characters become entities that start with `&` and end with `;`. Every other character, `\r` and `\n` included, is kept. No result holds a raw `<`, `>`, `"` or `'`. |
| Sanitizer.Escape | trans-bbs/source/app.py:29 | `escape` never shortens its input. |
| Sanitizer.EscapeIsInert | trans-bbs/source/app.py:29 | Escaped text holds no raw `<`, `>`, `"` or `'`. It holds a `\r` or a `\n` only if the input did. |
| Sanitizer.UnescapeEscape | trans-bbs/source/app.py:29 | `escape` loses nothing: decoding the five entities gives back the original text exactly. |
| Sanitizer.Replace | trans-bbs/source/app.py:30 | `str.replace`, left to right and non-overlapping. Non-empty text and a non-empty replacement never give an empty result. |
| Sanitizer.ReplaceAvoids | trans-bbs/source/app.py:30 | A character that is in neither the text nor the replacement is not in the result. |
| Sanitizer.ReplaceRemoves | trans-bbs/source/app.py:30 | After replacing every occurrence of a character by text without it, the character is gone. |
| Sanitizer.ReplaceSkips | trans-bbs/source/app.py:30 | A prefix in which the pattern cannot start is copied unchanged, and the replacement continues after it. |
| Sanitizer.ReplaceCharSplits | trans-bbs/source/app.py:30 | Replacing a single character works piece by piece: on a concatenation it concatenates the replaced parts. |
| Sanitizer.PassesMatchReading | trans-bbs/source/app.py:30 | The three chained passes over escaped text equal a single left-to-right reading. In that reading, `\r\n` and a lone `\r` become their markers as rewritten by the later passes, and `\n` becomes the last marker. |
| Sanitizer.Nl2brWith | source/app.py:17-33 | A falsy value (`None` or `""`) gives `""`. Any other value gives a non-empty result whenever the marker is non-empty. |
| Sanitizer.Nl2br | trans-bbs/source/app.py:26-32 | The board's filter: the output is empty exactly when the value is falsy. It never holds raw `<`, `>`, `"`, `'`, or a `\r`. |
| Sanitizer.Nl2brReading | source/app.py:25-28 | The filter on any text is the one-pass reading. `\r\n` and a lone `\r` both become the marker with its `\n` replaced by the marker again. `\n` becomes the marker. |
| Sanitizer.PlainTextIsEscaped | source/app.py:23-31 | Text without `\r` or `\n` comes out exactly as its escaped form. |
| Sanitizer.NoCarriageReturn | source/app.py:28 | No `\r` survives the three passes when the marker holds none. |
| Sanitizer.Nl2brIsInert | trans-bbs/source/app.py:28-31 | Whatever the user types, the output holds no raw markup character when the marker holds none. |
| Sanitizer.LineFeedIsOneMarker | source/app.py:28 | A `\n` between two lines becomes exactly one marker, with both lines escaped. |
| Sanitizer.CrLfIsMarkerAfterLastPass | source/app.py:28 | A `\r\n` between two lines becomes the marker with its own `\n` replaced by the marker again. |
| Sanitizer.LoneCrIsMarkerAfterLastPass | source/app.py:28 | A lone `\r` between two lines becomes that same doubled marker. |
| Sanitizer.AfterLastPassIsTwoBreaks | trans-bbs/source/app.py:30 | A marker ending in its only `\n`, once rewritten by the last pass, is two breaks. |
| Sanitizer.InsertedMarkerIsEscaped | trans-bbs/source/app.py:29-30 | The text the board inserts for a break is `escape('<br>\n')`. |
| Sanitizer.InsertedMarkerIsGood | trans-bbs/source/app.py:29-30 | The inserted text ends in its only `\n` and holds neither `\r` nor raw markup. |
| Sanitizer.InsertedMarkerAfterLastPass | trans-bbs/source/app.py:30 | The board's marker, rewritten by the last pass, is two escaped breaks. |
| Sanitizer.BreakShowsAsText | trans-bbs/source/app.py:29-31 | On the board, a `\n` between two lines shows up as the escaped text `&lt;br&gt;\n`, and the output contains no `<`. |
| Sanitizer.CrLfGivesTwoMarkers | trans-bbs/source/app.py:30 | On the board, `a\r\nb` gives `a&lt;br&gt;&lt;br&gt;\nb`, so two breaks for one line ending. |
| Sanitizer.LoneCrGivesTwoMarkers | trans-bbs/source/app.py:30 | On the board, `a\rb` gives two breaks as well. |
| Sanitizer.TagIsText | trans-bbs/source/app.py:28-31 | A tag the user types, such as `<script>`, comes out as inert text: `&lt;script&gt;`. |
| Sanitizer.EscapeSplits | trans-bbs/source/app.py:29 | `escape` works piece by piece: escaping a concatenation concatenates the escaped parts. |
| Sanitizer.PlainEscape | trans-bbs/source/app.py:29 | Text without markup characters escapes to itself. |
| Sanitizer.Nl2brIntended | source/app.py:26-31 | The corrected filter: a falsy value gives `""`, and any other value gives a non-empty result. |
| Sanitizer.OneTagPerLineEnding | source/app.py:26-31 | The corrected filter reads each `\r\n`, lone `\r` and `\n` as exactly one `<br>\n` tag. |
| Sanitizer.IntendedLineEndingsAgree | source/app.py:26-31 | With the correction, `\r\n`, `\r` and `\n` between two lines all give the same output: the escaped lines around one raw `<br>\n`. |
| SessionGate.Guard | trans-bbs/source/app.py:44-53 | A request passes exactly when the session is logged in. Otherwise the answer redirects to the login page with `next` set to the requested URL, flashing the warning. |
| SessionGate.ReturnTarget | trans-bbs/source/app.py:109-110 | `next_url or url_for('index')`: the `next` argument when it is non-empty, otherwise the post list. |
| SessionGate.LoginStep | trans-bbs/source/app.py:100-113 | The flag ends up set exactly when it already was, or when a POST carries the right password. Each branch has its own answer:<br>• already logged in: redirect to `/`, session unchanged;<br>• right password: redirect to `next` or `/`, flashing success;<br>• wrong or missing password: the form again, flashing the error;<br>• GET: the bare form. |
| SessionGate.GuardedUrlIsHonoured | trans-bbs/source/app.py:48-51 | The login that follows a refusal by the guard, with the right password, sends the user back to the refused URL. |
| SessionGate.Session.constructor | trans-bbs/source/app.py:48 | A fresh session is not logged in. |
| SessionGate.Session.Login | trans-bbs/source/app.py:99-113 | The handler's new flag and answer are those of `LoginStep`. A wrong password never logs anyone in, and a logged-in session stays logged in. |
| SessionGate.Session.Logout | trans-bbs/source/app.py:116-121 | Afterwards the session is logged out, whatever it was before, and the answer redirects to the login page with the info flash. |
| TransBbs.LexerFor | trans-bbs/source/app.py:73-81 | The lexer is the requested language (default "text") when Pygments knows it, and "text" otherwise. It never fails. |
| TransBbs.NewPost | trans-bbs/source/app.py:77-93 | The record has the given id and the raw message. The name is never empty and defaults to "名無しさん". Highlighted code is present exactly when the snippet is non-empty, and then it is the highlighter's output for that snippet with the chosen lexer. |
| TransBbs.IdsIncrease | trans-bbs/source/app.py:87-89 | Ids in storage order are strictly increasing, so no id is reused. |
| TransBbs.PostStore.constructor | trans-bbs/source/app.py:20-23 | The store starts empty, with counter 0, and satisfies its invariant. |
| TransBbs.PostStore.Submit | trans-bbs/source/app.py:67-93 | When the message or the snippet is non-empty, the counter goes up by one and exactly that new record is appended. Otherwise nothing changes. The invariant is kept. |
| TransBbs.PostStore.PostRoute | trans-bbs/source/app.py:65-96 | Not logged in: the guard's redirect, and the store is unchanged. Logged in: `Submit`'s effect, then a redirect to `/`. |
| TransBbs.PostStore.Index | trans-bbs/source/app.py:58-62 | Every record, newest first, with ids strictly decreasing. |
| TransBbs.ListsNewestFirst | trans-bbs/source/app.py:58-93 | Three accepted posts A, B and C are listed as C, B, A, with ids 3, 2 and 1. |
| TransBbs.EmptySubmissionIsDropped | trans-bbs/source/app.py:86-93 | A submission with neither a message nor a snippet leaves an empty board empty. |
| SimpleBbs.PostStore.constructor | source/app.py:11-14 | The store starts empty, with counter 0, and satisfies its invariant. |
| SimpleBbs.PostStore.Submit | source/app.py:53-78 | A non-empty message appends one record with the next id, the display name and the message. Otherwise nothing changes. The invariant is kept, and the answer is always a redirect to `/`. |
| SimpleBbs.PostStore.Index | source/app.py:41-49 | Every record, newest first, with ids strictly decreasing. |
| SimpleBbs.SameTextTwice | source/app.py:63-75 | The same text posted twice gives two records with distinct ids 2 and 1, and an empty or missing name is stored as "名無しさん". |

## Left out

- Flask's routing, request parsing, `url_for` and `redirect` are not modelled as HTTP. A redirect is a `Target` value: the post list, the login page with its optional `next`, or a URL.
- Template rendering (`index.html`, `login.html`) and Jinja's autoescaping are not modelled. The stores keep messages raw, and the filter is modelled on its own.
- The flash queue is not modelled as per-session state. Each handler returns the one message it flashes.
- The session cookie, its signing and `app.secret_key` are not modelled. A `Session` object stands for one client's session.
- The `BBS_PASSWORD` environment lookup and its default are not modelled. The password is a parameter of `Login`.
- Pygments (`highlight`, `HtmlFormatter`, `get_lexer_by_name` with `stripall`, and the CSS from `get_style_defs`) is not modelled. The highlighter and the set of known lexer names are parameters of the store, and `Index` does not return the CSS string.
- Concurrent requests are not modelled. The module-level list and counter are updated without a lock, and the model treats each request as atomic.
- `app.run` and the server configuration are not modelled. Neither is anything outside the two `app.py` files.
- Python's `Markup` type is not modelled. Only the characters of the filter's result are modelled, not the "safe" flag.

## Findings

| source | as written | input that shows it | evidently intended | confidence | as-written member | corrected member |
|---|---|---|---|---|---|---|
| trans-bbs/source/app.py:30 (same as source/app.py:28) | `\r\n` and a lone `\r` are replaced by a text that ends in `\n`, and the third pass then replaces that `\n` again | `"a\r\nb"` gives `"a&lt;br&gt;&lt;br&gt;\nb"`: two breaks | one break per line ending, whatever its kind (the comment at source/app.py:26 lists the three codes as all becoming one tag) | high; not executed | Sanitizer.CrLfGivesTwoMarkers | Sanitizer.IntendedLineEndingsAgree |
| trans-bbs/source/app.py:29-30 (same as source/app.py:25-28) | the replacement `'<br>\n'` is a plain `str`, so `Markup.replace` escapes it: the page shows the text "&lt;br&gt;" instead of a line break | `"a\nb"` gives `"a&lt;br&gt;\nb"` | a real `<br>` tag, kept from re-escaping by the `Markup` wrapper (source/app.py:29-30) | medium, since it rests on markupsafe's `Markup.replace` escaping its argument; not executed | Sanitizer.BreakShowsAsText | Sanitizer.OneTagPerLineEnding |
