# RetroResources: resource list, URL check and create form

RetroResources is an Android client for a REST collection of learning
resources. Each resource is a record with a nullable `id`, a title (`titulo`),
a link (`enlace`), a description (`descripcion`), a type (`tipo`) and an
image link (`imagen`). This project models three pieces of logic in the
client and proves properties of them.

- **The list adapter** (`ResourcesAdapter`) keeps two lists. `recursos` is
  the list the adapter was built with, and nothing changes it. It is a
  `const` field of the class. `recursosFiltrados` is the view the screen
  shows.
  - `filtrar` rebuilds the view from `recursos`. It keeps every record for
    the empty query. Otherwise it keeps the records whose title, link or
    description contains the query, ignoring case.
  - A confirmed delete removes the row at the given position from the view.
  - A confirmed update replaces that row.
  - `clearDatos` empties the view.
  - Each network callback is a method that takes the outcome as a parameter:
    `Success(body)`, `Unsuccessful` or `Failure`. The method returns the
    request the adapter sends.
- **`isValidUrl`** is a full match of
  `^(https?://)([a-zA-Z0-9\-]+\.)+[a-zA-Z]{2,}(/\S*)?$`. The source writes it
  twice, identically: once in the adapter and once in the create screen. The
  model defines it once and proves it two ways.
  - `MatchesUrlPattern` is declarative: some split of the string gives a
    scheme, dotted labels, a top-level domain and a path.
  - `IsValidUrl` is executable: it reads the scheme length, the first `/`,
    the last `.` of the host, and then scans the labels left to right.
  - `IsValidUrlCorrect` proves that the two accept the same strings.
- **The create screen** (`AddResourceActivity`):
  - the checks on the five trimmed fields;
  - the id of the new record: one more than the largest `id ?: 0` of the
    fetched list;
  - the record that is posted;
  - the submit button. It is disabled on submit, re-enabled by
    `resetButton` on each of the four failure paths, and left disabled when
    the post succeeds and the screen finishes.

Files:

- `resources.dfy`: the record, `Option`, and a response outcome.
- `text.dfy`: `trim()` and `contains(ignoreCase = true)`.
- `url.dfy`: the URL pattern.
- `forms.dfy`: the five-field form.
- `adapter.dfy`: the filter and the adapter class.
- `add_resource.dfy`: the create screen.

The create button stays disabled after a successful post, because the
screen finishes (`AddResourceActivity.kt:101-103`). The create screen
changes no list.

## Model

All source paths are under `RetroResources/app/src/main/java/sv/edu/udb/retroresource/`.

| member | source | states |
|---|---|---|
| Text.TrimStart | RetroResources/app/src/main/java/sv/edu/udb/retroresource/AddResourceActivity.kt:62-66 | the result is no longer than the input; everything dropped from the front is whitespace; the result is empty or starts with a non-whitespace character |
| Text.TrimEnd | RetroResources/app/src/main/java/sv/edu/udb/retroresource/AddResourceActivity.kt:62-66 | the mirror image of `TrimStart` at the back of the string |
| Text.Trim | RetroResources/app/src/main/java/sv/edu/udb/retroresource/AddResourceActivity.kt:62-66 | `trim()` is empty exactly when the field is all whitespace; a non-empty result starts and ends with non-whitespace; the result is a slice of the input with only whitespace cut away on either side |
| Text.TrimIdempotent | RetroResources/app/src/main/java/sv/edu/udb/retroresource/AddResourceActivity.kt:62-66 | trimming a trimmed field changes nothing |
| Text.ToLowerAscii | RetroResources/app/src/main/java/sv/edu/udb/retroresource/api/ResourcesAdapter.kt:101-103 | case folding leaves no upper-case letter, and maps letters to letters and non-letters to non-letters |
| Text.ToLowerAsciiSameFold | RetroResources/app/src/main/java/sv/edu/udb/retroresource/api/ResourcesAdapter.kt:101-103 | two characters are equal ignoring case exactly when they are equal or are the upper- and lower-case forms of the same ASCII letter |
| Text.ContainsIgnoreCase | RetroResources/app/src/main/java/sv/edu/udb/retroresource/api/ResourcesAdapter.kt:101-103 | `s.contains(q, ignoreCase = true)`: some region of `s` of the length of `q` equals `q` character by character up to case (a definition; the lemmas below state its properties) |
| Text.ContainsEmpty | RetroResources/app/src/main/java/sv/edu/udb/retroresource/api/ResourcesAdapter.kt:101-103 | every string contains the empty query |
| Text.ContainsIgnoreCaseIsCaseBlind | RetroResources/app/src/main/java/sv/edu/udb/retroresource/api/ResourcesAdapter.kt:101-103 | `contains(q, ignoreCase = true)` gives the same answer after folding both strings to lower case |
| Text.NotContainsChar | RetroResources/app/src/main/java/sv/edu/udb/retroresource/api/ResourcesAdapter.kt:101-103 | a one-character query is absent when no character of the string equals it up to case |
| UrlPattern.MatchesUrlPattern | RetroResources/app/src/main/java/sv/edu/udb/retroresource/api/ResourcesAdapter.kt:151 | the declarative reading of the pattern: the string splits into `https?://`, dot-terminated labels, a top-level domain of two or more letters and an optional path (a definition; `IsValidUrlCorrect` ties it to the recogniser) |
| UrlPattern.IsValidUrl | RetroResources/app/src/main/java/sv/edu/udb/retroresource/api/ResourcesAdapter.kt:149-153 | the executable recogniser used by both screens; `IsValidUrlCorrect` states that it accepts exactly the strings of `MatchesUrlPattern` |
| UrlPattern.SchemeLength | RetroResources/app/src/main/java/sv/edu/udb/retroresource/api/ResourcesAdapter.kt:151 | the length of the `https?://` prefix is 0, 7 or 8, and when it is not 0 that prefix is a scheme |
| UrlPattern.SchemeLengthUnique | RetroResources/app/src/main/java/sv/edu/udb/retroresource/api/ResourcesAdapter.kt:151 | `(https?://)` can match only one prefix of a string, the one `SchemeLength` finds |
| UrlPattern.IndexOfOrEnd | RetroResources/app/src/main/java/sv/edu/udb/retroresource/api/ResourcesAdapter.kt:151 | the position of the first `/`, or the end when there is none |
| UrlPattern.LastIndexOf | RetroResources/app/src/main/java/sv/edu/udb/retroresource/api/ResourcesAdapter.kt:151 | the position of the last `.`, or none when there is no dot |
| UrlPattern.LabelsFromCorrect | RetroResources/app/src/main/java/sv/edu/udb/retroresource/api/ResourcesAdapter.kt:151 | the left-to-right scanner accepts exactly the strings that match `([a-zA-Z0-9\-]+\.)+` |
| UrlPattern.DottedLabelsShape | RetroResources/app/src/main/java/sv/edu/udb/retroresource/api/ResourcesAdapter.kt:151 | a run of dotted labels holds only label characters and dots, and ends with a dot |
| UrlPattern.IsValidUrlSound | RetroResources/app/src/main/java/sv/edu/udb/retroresource/api/ResourcesAdapter.kt:149-153 | every string the recogniser accepts matches the pattern |
| UrlPattern.IsValidUrlComplete | RetroResources/app/src/main/java/sv/edu/udb/retroresource/api/ResourcesAdapter.kt:149-153 | every string that matches the pattern is accepted |
| UrlPattern.IsValidUrlCorrect | RetroResources/app/src/main/java/sv/edu/udb/retroresource/AddResourceActivity.kt:68-71 | `isValidUrl(s)` holds if and only if `s` splits into scheme, one or more dot-terminated labels, a top-level domain of at least two letters, and an optional path of non-space characters |
| UrlPattern.RejectsWithoutScheme | RetroResources/app/src/main/java/sv/edu/udb/retroresource/api/ResourcesAdapter.kt:149-153 | a string that starts with neither `http://` nor `https://` is rejected |
| UrlPattern.ValidUrlIsLong | RetroResources/app/src/main/java/sv/edu/udb/retroresource/api/ResourcesAdapter.kt:149-153 | an accepted URL has at least eleven characters, so it is never empty |
| Forms.Trimmed | RetroResources/app/src/main/java/sv/edu/udb/retroresource/AddResourceActivity.kt:62-66 | the five form fields, each passed through `trim()` (a definition; `Text.Trim` states what trimming yields) |
| Forms.FilledIffNoBlankField | RetroResources/app/src/main/java/sv/edu/udb/retroresource/AddResourceActivity.kt:62-73 | after trimming, all five fields are non-empty exactly when none of them was blank |
| Forms.ValidUrlsAreFilled | RetroResources/app/src/main/java/sv/edu/udb/retroresource/api/ResourcesAdapter.kt:185-186 | the emptiness tests on the two links are implied by their URL tests |
| Adapter.MatchesQuery | RetroResources/app/src/main/java/sv/edu/udb/retroresource/api/ResourcesAdapter.kt:100-104 | the filter condition: the title, the link or the description contains the query ignoring case; the type and the image link are not searched (a definition) |
| Adapter.Filter | RetroResources/app/src/main/java/sv/edu/udb/retroresource/api/ResourcesAdapter.kt:96-105 | the view `filtrar` builds: the full list for the empty query, the matching records otherwise; `FilterSelectsMatching` and `FilterEmptyQuery` state what it contains |
| Adapter.KeepMatching | RetroResources/app/src/main/java/sv/edu/udb/retroresource/api/ResourcesAdapter.kt:100-104 | the filter result is no longer than the list, and every record in it comes from the list and matches the query |
| Adapter.MatchPositionsSpec | RetroResources/app/src/main/java/sv/edu/udb/retroresource/api/ResourcesAdapter.kt:100-104 | the matching positions are in range and strictly ascending, and a position is listed exactly when its record matches |
| Adapter.KeepMatchingPicks | RetroResources/app/src/main/java/sv/edu/udb/retroresource/api/ResourcesAdapter.kt:100-104 | the filter result is the list read at the matching positions |
| Adapter.FilterEmptyQuery | RetroResources/app/src/main/java/sv/edu/udb/retroresource/api/ResourcesAdapter.kt:97-98 | `filtrar("")` gives the full list in its order; the `filter` branch would give the same list too |
| Adapter.FilterSelectsMatching | RetroResources/app/src/main/java/sv/edu/udb/retroresource/api/ResourcesAdapter.kt:96-105 | the view is exactly the records of the full list whose title, link or description contains the query ignoring case, in their original order: a subsequence taken at ascending positions |
| Adapter.KeepMatchingIdempotent | RetroResources/app/src/main/java/sv/edu/udb/retroresource/api/ResourcesAdapter.kt:100-104 | filtering a filtered list again with the same query changes nothing |
| Adapter.FilterIdempotent | RetroResources/app/src/main/java/sv/edu/udb/retroresource/api/ResourcesAdapter.kt:96-105 | filtering twice with the same query gives the same view as filtering once |
| Adapter.FilterExample | RetroResources/app/src/main/java/sv/edu/udb/retroresource/api/ResourcesAdapter.kt:100-104 | of the records titled "A" and "B", the query "a" keeps only the first |
| Adapter.RemoveAt | RetroResources/app/src/main/java/sv/edu/udb/retroresource/api/ResourcesAdapter.kt:135 | `removeAt(p)` shortens the list by one, keeps everything before `p`, shifts everything after it down by one, and removes exactly one occurrence of the element at `p` |
| Adapter.EditedResource | RetroResources/app/src/main/java/sv/edu/udb/retroresource/api/ResourcesAdapter.kt:178-189 | an edit is accepted exactly when all five trimmed fields are non-empty and both links pass `isValidUrl`; the submitted copy keeps the original `id` and carries exactly the five trimmed values |
| Adapter.ResourcesAdapter.constructor | RetroResources/app/src/main/java/sv/edu/udb/retroresource/api/ResourcesAdapter.kt:25-33 | the view starts as the full list |
| Adapter.ResourcesAdapter.GetItemCount | RetroResources/app/src/main/java/sv/edu/udb/retroresource/api/ResourcesAdapter.kt:70-72 | the count is the length of the view, so it is 0 after `ClearDatos` |
| Adapter.ResourcesAdapter.Filtrar | RetroResources/app/src/main/java/sv/edu/udb/retroresource/api/ResourcesAdapter.kt:96-107 | the new view is a function of the unchanging full list and the query alone, so rows deleted or replaced earlier come back in their original form |
| Adapter.ResourcesAdapter.EliminarRecurso | RetroResources/app/src/main/java/sv/edu/udb/retroresource/api/ResourcesAdapter.kt:126-147 | a DELETE with the id of the row at `position` is sent; on success exactly that row leaves the view; on an unsuccessful response or a failure the view is unchanged |
| Adapter.ResourcesAdapter.ActualizarRecurso | RetroResources/app/src/main/java/sv/edu/udb/retroresource/api/ResourcesAdapter.kt:201-221 | a null id sends nothing and changes nothing; otherwise a PUT under that id is sent; on success the row at `position` becomes the response body, or the local record when the body is null, and nothing else changes; on an unsuccessful response or a failure the view is unchanged |
| Adapter.ResourcesAdapter.ModificarRecurso | RetroResources/app/src/main/java/sv/edu/udb/retroresource/api/ResourcesAdapter.kt:176-195 | an invalid edit sends nothing and leaves the view alone; a valid one goes through `actualizarRecurso` with the edited copy |
| Adapter.ResourcesAdapter.ClearDatos | RetroResources/app/src/main/java/sv/edu/udb/retroresource/api/ResourcesAdapter.kt:225-228 | the view becomes empty; the full list is a constant and stays as it was |
| AddResource.CheckForm | RetroResources/app/src/main/java/sv/edu/udb/retroresource/AddResourceActivity.kt:62-74 | the form is reported as having an empty field exactly when a trimmed field is empty, whatever its links are. It is reported as having an invalid URL exactly when all fields are filled and a link fails `isValidUrl`. It is accepted exactly when both checks pass, and the accepted values are the trimmed fields |
| AddResource.CreateAndEditAcceptAlike | RetroResources/app/src/main/java/sv/edu/udb/retroresource/AddResourceActivity.kt:73-74 | the create screen and the edit dialog accept the same forms |
| AddResource.WrapInt | RetroResources/app/src/main/java/sv/edu/udb/retroresource/AddResourceActivity.kt:91 | Kotlin `Int` arithmetic: the result is in the 32-bit range, differs from the exact value by a multiple of 2^32, and equals it when it is in range |
| AddResource.MaxIdOrZero | RetroResources/app/src/main/java/sv/edu/udb/retroresource/AddResourceActivity.kt:90 | `maxOf { it.id ?: 0 }` is at least the `id ?: 0` of every record and equal to that of some record |
| AddResource.NextIdAsWritten | RetroResources/app/src/main/java/sv/edu/udb/retroresource/AddResourceActivity.kt:89-95 | the id as the code computes it: 1 for a null or empty body, otherwise `maxOf { it.id ?: 0 } + 1` reduced into the 32-bit range |
| AddResource.NextIdAsWrittenOverflows | RetroResources/app/src/main/java/sv/edu/udb/retroresource/AddResourceActivity.kt:90-91 | a list whose largest id is `Int.MAX_VALUE` gets the new id `Int.MIN_VALUE`, smaller than the existing id |
| AddResource.NextIdAsWrittenAgrees | RetroResources/app/src/main/java/sv/edu/udb/retroresource/AddResourceActivity.kt:89-95 | while every `id ?: 0` is below `Int.MAX_VALUE`, the 32-bit computation gives the intended id |
| AddResource.NextId | RetroResources/app/src/main/java/sv/edu/udb/retroresource/AddResourceActivity.kt:89-95 | a null or empty body gives 1; otherwise the id exceeds every `id ?: 0` of the list and is one more than one of them |
| AddResource.NextIdIsFresh | RetroResources/app/src/main/java/sv/edu/udb/retroresource/AddResourceActivity.kt:89-92 | the new id is greater than every non-null id in the fetched list |
| AddResource.NextIdPositive | RetroResources/app/src/main/java/sv/edu/udb/retroresource/AddResourceActivity.kt:89-94 | the new id is at least 1 exactly when the body is null or empty or some record has a null or non-negative id |
| AddResource.NextIdExamples | RetroResources/app/src/main/java/sv/edu/udb/retroresource/AddResourceActivity.kt:89-94 | a list holding id 3 gives 4; an empty list and a null body give 1; a list holding id -5 and a null id gives 1 |
| AddResource.NewResource | RetroResources/app/src/main/java/sv/edu/udb/retroresource/AddResourceActivity.kt:92-94 | the record posted: the new id and the five trimmed fields (a definition; `PostedRecordCarriesForm` states that it carries the form values) |
| AddResource.PostedRecordCarriesForm | RetroResources/app/src/main/java/sv/edu/udb/retroresource/AddResourceActivity.kt:89-95 | the posted record has the new id and exactly the trimmed values of the matching fields |
| AddResource.AddResourceActivity.constructor | RetroResources/app/src/main/java/sv/edu/udb/retroresource/AddResourceActivity.kt:61 | the button starts enabled with the text of the layout, and no request has been sent |
| AddResource.AddResourceActivity.ResetButton | RetroResources/app/src/main/java/sv/edu/udb/retroresource/AddResourceActivity.kt:136-139 | the button shows "Añadir Recurso" and is enabled |
| AddResource.AddResourceActivity.OnClick | RetroResources/app/src/main/java/sv/edu/udb/retroresource/AddResourceActivity.kt:61-131 | an empty field or an invalid link sends no request and leaves the button as it was; an accepted form disables the button, shows "Añadiendo recurso..." and sends the GET; the button stays disabled exactly while the screen is not editing |
| AddResource.AddResourceActivity.Submit | RetroResources/app/src/main/java/sv/edu/udb/retroresource/AddResourceActivity.kt:73-80 | the outcome of the click once the form has been checked |
| AddResource.AddResourceActivity.OnFetchResponse | RetroResources/app/src/main/java/sv/edu/udb/retroresource/AddResourceActivity.kt:85-124 | a successful fetch posts the new record with the next id and the captured trimmed fields, and the button stays disabled; an unsuccessful fetch or a failure re-enables the button with its idle text and sends nothing |
| AddResource.AddResourceActivity.OnPostResponse | RetroResources/app/src/main/java/sv/edu/udb/retroresource/AddResourceActivity.kt:99-113 | a successful post finishes the screen with the button still disabled; an unsuccessful post or a failure re-enables the button with its idle text |

## Left out

- Android presentation is not modelled:
  - view holders, layout inflation and dialogs;
  - toasts, `Log` calls and `notify*` calls.
  The delete toast at `ResourcesAdapter.kt:120` appears whatever the outcome.
- Image loading on a background thread with `HttpURLConnection` and bitmap
  decoding (`ResourcesAdapter.kt:75-93`) is I/O and foreign decoding.
- Retrofit and OkHttp setup, and the basic-auth interceptor, are a library
  wrapper. The calls themselves appear only as the request values the
  methods return or record.
- `ApiService.kt` is not part of this model. It holds HTTP annotations only.
- `MainActivity.kt` is not part of this model: lifecycle, connectivity
  receiver, load handling and views.
- Asynchrony is left out.
  - Each callback is one atomic step that takes its outcome as a parameter.
  - A view changed between a delete or update request and its callback, so
    that `position` is stale, is not modelled. The model states
    `position < |recursosFiltrados|` as a precondition.
  - Two concurrent creates that read the same maximum and pick the same id
    are not modelled.
- Adapter.ResourcesAdapter.EliminarRecurso: the path carries the id as text
  (`recurso.id.toString()`, the word `null` for a missing id). The model
  keeps the `Option<int>` and leaves the decimal rendering out.
- Text.Trim: whitespace is restricted to ASCII, where Kotlin's
  `isWhitespace` accepts tab through carriage return, U+001C..U+001F and
  space. Non-ASCII Unicode whitespace is left out.
- Text.ToLowerAscii, Text.ContainsIgnoreCase: `ignoreCase` is modelled as
  ASCII case folding. Unicode case mapping is left out.
- AddResource.AddResourceActivity.OnFetchResponse: the class posts the
  corrected id `NextId`, which has no bound. The code adds 1 in 32-bit `Int`
  arithmetic, so a list whose largest id is 2147483647 gets -2147483648
  there. `NextIdAsWrittenAgrees` shows the two ids coincide whenever every
  id is below 2147483647; the difference is the finding below.
- AddResource.AddResourceActivity.constructor: the idle text of the button
  comes from the layout file, which is not part of this model. It is a
  parameter.
- AddResource.AddResourceActivity.OnClick: Android delivers no click to a
  disabled button, so a click while the button is disabled is modelled as
  doing nothing.
- AddResource.AddResourceActivity.OnPostResponse: finishing the screen is
  modelled as the `Finished` phase. Closing the activity is not modelled.

## Findings

| source | as written | input that shows it | evidently intended | confidence | as-written member | corrected member |
|---|---|---|---|---|---|---|
| RetroResources/app/src/main/java/sv/edu/udb/retroresource/AddResourceActivity.kt:90-91 | `ultimoId + 1` in 32-bit `Int` arithmetic wraps at `Int.MAX_VALUE` | a fetched list whose largest id is 2147483647 gives the new id -2147483648, below the existing id | the new id is one more than the largest existing id, so it is greater than every id in the list | not executed | AddResource.NextIdAsWritten, AddResource.NextIdAsWrittenOverflows | AddResource.NextId, AddResource.NextIdIsFresh |
