# A church-membership application, modelled in Dafny

The application keeps a church's member records. A Django backend holds members and system users and computes dashboard statistics. A React frontend validates and masks Brazilian CPF numbers and telephone numbers, checks e-mail addresses, exports member lists as CSV, and turns API errors into form messages. It talks to the backend through an HTTP client that keeps JWT tokens in `localStorage` and, when a request fails with 401, refreshes the access token once for all waiting requests.

This project models that logic as pure Dafny functions over immutable data and proves what each part promises.

| file | module | models |
|---|---|---|
| `wrappers.dfy` | `Wrappers` | `Option` and `Result` |
| `seqs.dfy` | `Seqs` | `Array.prototype.filter` and counting, with order and partition facts; the keys of a list of entries (`Object.keys`) |
| `text.dfy` | `Text` | digit stripping (`replace(/\D/g, "")`), `split`/`join` on one character, decimal rendering, ASCII `toLowerCase`, `includes`, `indexOf`, the JavaScript white-space class |
| `js_value.dfy` | `Js` | JSON-like JavaScript values: truthiness, `?.`, `String(...)`, `Array.prototype.join` |
| `validators.dfy` | `Validators` | `limparCPF`, `formatarCPF`, `validarCPF`, `limparTelefone`, `formatarTelefone`, `validarTelefone`, `validarEmail` |
| `csv_export.dfy` | `CsvExport` | `formatarDataParaCSV` and the content built by `exportarCSV`; an RFC 4180 record reader to state that lines read back |
| `api_errors.dfy` | `ApiErrors` | `parseApiErrors` |
| `api_client.dfy` | `ApiClient` | the token store, `forceLogout`, both interceptors, `processQueue` and `refreshAccessToken`, as a state machine over events |
| `members.dfy` | `Members` | the `Usuario` and `Membro` records, `GENERO_CHOICES`, field constraints, defaults, CPF uniqueness |
| `tally.dfy` | `Tally` | `values(key).annotate(total=Count(key))`, `order_by('-total')` and slicing |
| `dashboard.dfy` | `Dashboard` | `dashboard_view`: counts, gender labels, age bands, top ministries |
| `member_list.dfy` | `MemberList` | delete-by-id and search on the member list pages |

The token-refresh client runs to completion per callback, as JavaScript does. It is modelled as a record holding:
- both storage areas;
- whether a logout callback is registered;
- the `isRefreshing` flag and the waiter queue;
- the first 401 handler, suspended in its `await`.

An event moves it to a new record and emits effects:
- a caller's promise rejects;
- a request goes out again;
- the refresh endpoint is called;
- the logout callback runs.

Three behaviours of the client worth noting:
- After a successful refresh the code stores the new access token next to the refresh token it sent. A rotated refresh token in the reply is ignored.
- The code has no `logout()` that cancels waiting requests. `clearAuthTokens` only clears storage. A refresh already in flight that then succeeds writes both tokens back (`ApiClient.ClearDuringRefreshRestoresTokens`).
- Without a stored refresh token, `refreshAccessToken` still fails asynchronously, after the `await`. Other 401s can queue before that failure, so the model makes it a settle event like any other.

## Model

| member | source | states |
|---|---|---|
| Validators.LimparCpf | frontend/src/utils/validators.js:28-31 | The result is all digits, and an absent or empty CPF gives `""`. |
| Validators.LimparTelefone | frontend/src/utils/validators.js:120-123 | The result is all digits, and an absent or empty telephone gives `""`. |
| Validators.OnlyDigitsCharacterised | frontend/src/utils/validators.js:30 | The stripped text is a subsequence of the input, as long as the input's count of digits: exactly its digits, in order. |
| Validators.LimparCpfIdempotent | frontend/src/utils/validators.js:28-31 | Stripping a stripped CPF changes nothing. |
| Validators.LimparTelefoneIdempotent | frontend/src/utils/validators.js:120-123 | Stripping a stripped telephone changes nothing. |
| Validators.LimparMasked | frontend/src/utils/validators.js:28-31 | Stripping `a.b.c-d`, for digit groups a, b, c and d, gives the four groups concatenated. |
| Validators.CpfMaskDigits | frontend/src/utils/validators.js:48-51 | Stripping the mask of a digit string gives back its first min(11, n) digits. |
| Validators.FormatarCpf | frontend/src/utils/validators.js:44-51 | The masked CPF is at most 14 characters long. |
| Validators.FormatarCpfDigits | frontend/src/utils/validators.js:44-51 | Stripping `formatarCPF`'s output returns the first min(11, n) digits of the input. |
| Validators.FormatarCpfComplete | frontend/src/utils/validators.js:51 | With 11 digits the output has the shape `ddd.ddd.ddd-dd` and strips back to those digits. |
| Validators.FormatarCpfIdempotent | frontend/src/utils/validators.js:44-51 | Masking a masked CPF changes nothing. |
| Validators.CpfMaskedFixedPoint | frontend/src/utils/validators.js:44-51 | A string already of the shape `ddd.ddd.ddd-dd` is returned unchanged. |
| Validators.CheckDigit | frontend/src/utils/validators.js:88-89 | The check digit is in 0..9. It is 0 exactly when the sum is 0 or 1 modulo 11; otherwise adding it makes the sum a multiple of 11. |
| Validators.SumWeighted | frontend/src/utils/validators.js:84-87 | The summation loop yields the weighted digit sum of the first n digits: the first digit weighted `top`, each next one a weight less. The same loop serves lines 95-98. |
| Validators.ValidarCpf | frontend/src/utils/validators.js:74-107 | The result is true iff the stripped CPF has 11 digits, not all equal, and both check digits match (weights 10..2, then 11..2). It is false for any other length and for repeated digits. The result depends only on the digits, so punctuation is irrelevant. |
| Validators.CompleteCpf | frontend/src/utils/validators.js:84-103 | Nine digits followed by their two computed check digits form an 11-digit string that starts with those nine. |
| Validators.CpfValidIffCompleted | frontend/src/utils/validators.js:84-106 | Eleven digits are valid iff they equal their first nine completed with the two check digits, and are not all equal. |
| Validators.CpfDocExampleValid | frontend/src/utils/validators.js:71 | `111.444.777-35` is valid. |
| Validators.CpfDocExampleInvalid | frontend/src/utils/validators.js:72 | `123.456.789-00` is invalid: its second check digit should be 9. |
| Validators.FormatarCpfKeepsValidity | frontend/src/utils/validators.js:44-51 | For at most 11 digits, masking does not change whether the CPF is valid. |
| Validators.FormatarTelefone | frontend/src/utils/validators.js:136-144 | The masked telephone is at most 15 characters long, and it is empty iff the input has no digits. |
| Validators.FormatarTelefoneShort | frontend/src/utils/validators.js:141-142 | One or two digits give `(` plus the digits. Three to seven digits give `(dd) ` plus the rest. |
| Validators.FormatarTelefoneComplete | frontend/src/utils/validators.js:143 | Eleven digits give the shape `(dd) ddddd-dddd`, and the output strips back to those digits. |
| Validators.FormatarTelefoneDigits | frontend/src/utils/validators.js:136-144 | Stripping the masked telephone returns the first min(11, n) digits of the input. |
| Validators.FormatarTelefoneIdempotent | frontend/src/utils/validators.js:136-144 | Masking a masked telephone changes nothing. |
| Validators.ValidarTelefone | frontend/src/utils/validators.js:159-163 | The result is true iff the input holds 10 or 11 digit characters. |
| Validators.FormatarTelefoneValidity | frontend/src/utils/validators.js:159-163 | For at most 11 digits, masking keeps validity. Longer inputs become valid once masked, because the mask truncates to 11 digits. |
| Validators.ValidarEmail | frontend/src/utils/validators.js:177-178 | An absent or empty address is accepted. |
| Validators.ValidarEmailSound | frontend/src/utils/validators.js:179-180 | Every non-empty address the check accepts splits as atom `@` atom `.` atom, where no atom is empty or holds white space or `@`. |
| Validators.ValidarEmailComplete | frontend/src/utils/validators.js:179-180 | Every address of the shape atom `@` atom `.` atom is accepted. |
| Validators.ValidarEmailMatchesPattern | frontend/src/utils/validators.js:177-181 | A non-empty address is accepted iff it matches `^[^\s@]+@[^\s@]+\.[^\s@]+$`. |
| Text.SplitJoin | frontend/src/utils/export.js:26 | Splitting pieces joined by a separator they do not contain gives back the pieces. |
| Text.JoinSplit | frontend/src/utils/export.js:26 | Joining the pieces of a split gives back the text. |
| Text.DigitsCharacterised | frontend/src/utils/validators.js:30 | The digits of a text are a subsequence of it, as many as it has digit characters. |
| Js.Lookup | frontend/src/utils/export.js:103 | A property is found iff the object has an entry with that name, and the value found is that entry's value. |
| CsvExport.FormatarDataParaCsv | frontend/src/utils/export.js:23-31 | A non-string or empty value gives `""`. |
| CsvExport.FormatarDataParaCsvReorders | frontend/src/utils/export.js:26-27 | `y-m-d` becomes `d/m/y` when no part holds a dash. |
| CsvExport.FormatarDataParaCsvShort | frontend/src/utils/export.js:26-27 | A dash-free date shows `undefined` for each missing piece. |
| CsvExport.EscapeText | frontend/src/utils/export.js:75-80 | Text without a comma, double quote or line feed is kept as is. Other text is wrapped in double quotes. |
| CsvExport.EscaparCsv | frontend/src/utils/export.js:73-81 | `null` and `undefined` give the empty cell. A value whose string needs no quoting is emitted as that string. |
| CsvExport.EscapeRoundTrip | frontend/src/utils/export.js:77-78 | Removing the outer quotes and collapsing `""` recovers the escaped text. |
| CsvExport.CarriageReturnNotQuoted | frontend/src/utils/export.js:77 | A lone carriage return does not cause quoting. |
| CsvExport.FormatarValor | frontend/src/utils/export.js:84-95 | Date-named fields go through the date formatter and are not escaped. Booleans elsewhere become `Sim`/`Não`. Every other value is escaped. |
| CsvExport.HeaderLabel | frontend/src/utils/export.js:68-70 | The label is the mapped value when it is truthy, and the field name otherwise. |
| CsvExport.HeaderCells | frontend/src/utils/export.js:98 | There is one escaped label per field, in field order; `CsvExport.HeaderLineReadsBack` shows the comma-joined line reads back as the labels. |
| CsvExport.RowCells | frontend/src/utils/export.js:101-105 | There is one formatted cell per header, in header order, read from the row's own property or `undefined`; `CsvExport.DataLineReadsBack` shows the comma-joined line reads back as the cells' texts. |
| CsvExport.CsvLines | frontend/src/utils/export.js:98-108 | The lines are the header line, then one line per object in input order, each with its cells joined by commas; `CsvExport.HeaderLineReadsBack` and `CsvExport.DataLineReadsBack` state what each line reads back as. |
| CsvExport.ExportarCsv | frontend/src/utils/export.js:57-112 | No content exists iff the data is absent or empty. Otherwise the content is U+FEFF followed by the lines joined by line feeds. |
| CsvExport.ReadQuotedDoubled | frontend/src/utils/export.js:78 | A reader scanning a doubled-quote body stops at the closing quote and yields the original text. |
| CsvExport.ReadEscapedCell | frontend/src/utils/export.js:73-81 | An escaped cell followed by a comma or the end reads back as its text. |
| CsvExport.ParseEscapedRecord | frontend/src/utils/export.js:98-104 | Escaped cells joined by commas read back as exactly the texts. |
| CsvExport.HeaderLineReadsBack | frontend/src/utils/export.js:98 | The header line reads back as the labels. |
| CsvExport.DataLineReadsBack | frontend/src/utils/export.js:101-105 | A data line reads back as its cells' texts, when its unescaped date cells hold no comma, quote or line feed. |
| ApiErrors.Payload | frontend/src/utils/parseApiErrors.js:2-5 | The payload is `response.data` unless nullish, else `data` unless nullish, else the value itself. |
| ApiErrors.Entries | frontend/src/utils/parseApiErrors.js:15 | An object gives its entries. An array gives its elements under decimal indexes. Anything else gives nothing. |
| ApiErrors.CollectFieldErrors | frontend/src/utils/parseApiErrors.js:15-23 | `detail` is never a key. A key is present iff some entry with it holds an array or a string. |
| ApiErrors.CollectFieldErrorsValues | frontend/src/utils/parseApiErrors.js:18-22 | With distinct names, each reported entry's message is its array joined by spaces, or its string. |
| ApiErrors.ParseApiErrors | frontend/src/utils/parseApiErrors.js:1-26 | A payload that is not an object gives no messages. `globalError` is `detail` iff `detail` is a string, and `""` otherwise. `detail` never appears among the field messages. |
| ApiErrors.ObjectFieldErrors | frontend/src/utils/parseApiErrors.js:15-23 | For an object payload, a field message exists iff that property holds an array or a string, and the message is that property's message. |
| ApiErrors.AxiosErrorPayload | frontend/src/utils/parseApiErrors.js:3 | For an axios error, the payload is the response body. |
| ApiErrors.ValidationExample | frontend/src/utils/parseApiErrors.js:18-19 | A list of two messages is joined by one space, and a numeric `detail` is ignored. |
| ApiClient.SetAuthTokens | frontend/src/services/apiClient.js:26-29 | Each truthy token is written. A falsy one leaves its key as it was. All other keys are unchanged. |
| ApiClient.ClearAuthTokens | frontend/src/services/apiClient.js:31-34 | Both tokens are gone, and all other keys are unchanged. |
| ApiClient.InterceptRequest | frontend/src/services/apiClient.js:53-57 | `Authorization` becomes `Bearer <access>` iff a truthy access token is stored. Otherwise the headers are unchanged. |
| ApiClient.ForceLogout | frontend/src/services/apiClient.js:42-50 | The tokens are cleared and `auth_error` is set to the expiry message. The callback runs iff one is registered. Refresh state is untouched. |
| ApiClient.OnResponseError | frontend/src/services/apiClient.js:97-127 | An error with no response, a non-401 status or an already retried request is rejected unchanged with no state change. A 401 from the refresh endpoint forces logout, then rejects. During a refresh the request is marked and queued. Otherwise a refresh starts, and the endpoint is called iff a refresh token is stored. |
| ApiClient.RefreshAccessToken | frontend/src/services/apiClient.js:74-92 | It fails without a refresh token, on a failed call, or on a reply without `access`. On success it stores the new access token and keeps the refresh token it sent. |
| ApiClient.ResolveAll | frontend/src/services/apiClient.js:66-72 | Every waiter, in queue order, is sent again carrying the new token; `ApiClient.RefreshSuccess` and `ApiClient.SettleAllOnce` place these sends in the settle step. |
| ApiClient.RejectAll | frontend/src/services/apiClient.js:66-72 | Every waiter, in queue order, is rejected with the refresh error; `ApiClient.RefreshFailure` and `ApiClient.SettleAllOnce` place these rejections in the settle step. |
| ApiClient.OnRefreshSettled | frontend/src/services/apiClient.js:129-141 | Once a refresh settles, the flag is down and the queue is empty, whatever the outcome. |
| ApiClient.StepKeepsInv | frontend/src/services/apiClient.js:63-141 | Every event preserves the invariant. The flag is up iff a handler awaits the refresh. The queue is empty when the flag is down. Every waiting request is marked retried. |
| ApiClient.RunKeepsInv | frontend/src/services/apiClient.js:63-141 | The invariant holds after any sequence of events. |
| ApiClient.StepPosts | frontend/src/services/apiClient.js:115-127 | One event calls the refresh endpoint at most once, never while a refresh is in flight, and leaves a refresh in flight when it does. |
| ApiClient.RunSingleFlight | frontend/src/services/apiClient.js:115-141 | Over any run, the refresh endpoint is called at most once more than refreshes completed (settles that found a refresh in flight), and not once more if a refresh was already in flight. |
| ApiClient.SettleAllOnce | frontend/src/services/apiClient.js:129-141 | When the refresh settles, each waiter and then the first request is settled exactly once, in queue order. |
| ApiClient.RefreshSuccess | frontend/src/services/apiClient.js:129-134 | On success the new access token is stored and the refresh token kept. Every waiter and the first request goes out again with `Bearer <new>`. |
| ApiClient.RefreshFailure | frontend/src/services/apiClient.js:135-138 | On failure all waiters are rejected with the error, then logout is forced, then the first request is rejected with the same error. |
| ApiClient.SentRequestsAreRetried | frontend/src/services/apiClient.js:113-134 | Every request sent again is marked retried. |
| ApiClient.RetriedAtMostOnce | frontend/src/services/apiClient.js:105 | A retried request that fails again is rejected unchanged, with no state change. |
| ApiClient.CredentialDurability | frontend/src/services/apiClient.js:86-91 | After a successful refresh, the next request intercepted, before any other event, carries the new access token. |
| ApiClient.ConcurrentScenario | frontend/src/services/apiClient.js:113-134 | Two 401s followed by a successful refresh give one refresh call. Both requests go out again, the queued one first. |
| ApiClient.ClearDuringRefreshRestoresTokens | frontend/src/services/apiClient.js:90 | Tokens cleared while a refresh is in flight are written back by its success. |
| Members.ValidGeneroCodes | usuarios/models.py:4-9 | The declared gender codes are exactly M, F, O and N. |
| Members.NovoUsuario | usuarios/models.py:11-15 | A new user has gender N, no age and is valid. |
| Members.NovoMembro | usuarios/models.py:21-37 | A new member is not baptised, is active, has gender N, and has none of its eight optional fields (responsible user, RG, address, telephone, e-mail, baptism date, ministry, age). It is valid iff its name and CPF are non-empty and within 255 and 14 characters. |
| Members.Insert | usuarios/models.py:21-37 | A save succeeds iff the member's fields are valid (name and CPF non-empty within 255 and 14 characters; RG and telephone within 20, e-mail within 254, ministry within 255; a declared gender; an age not negative) and its CPF is not already in the table. On success the member is appended. |
| Members.InsertKeepsTable | usuarios/models.py:24 | Saving keeps every member valid and every CPF unique. |
| Tally.GroupCountCorrect | usuarios/views.py:58 | Grouping gives distinct keys, exactly the values present, each with its number of occurrences (positive), and totals that sum to the row count. |
| Tally.GroupTotals | usuarios/views.py:58 | The total at each group's position is the number of occurrences of its key. |
| Tally.OrderByTotalCorrect | usuarios/views.py:86 | Ordering by total gives non-increasing totals and the same multiset of groups. |
| Tally.OrderByTotalDistinct | usuarios/views.py:86 | Ordering keeps the keys distinct and the same. |
| Tally.TopShape | usuarios/views.py:86 | The first n ordered groups are groups of the input, with distinct keys and non-increasing totals. |
| Tally.TopLeftOut | usuarios/views.py:86 | A group left out of the first n has a total no larger than any listed group, and n groups are listed. |
| Dashboard.ContarUsuarios | usuarios/views.py:45-48 | `inativos`, computed as total minus active, equals the number of inactive users and lies between 0 and the total. |
| Dashboard.ContarMembros | usuarios/views.py:51-55 | Active and inactive, counted separately, add up to the total. Baptised members never exceed the total. |
| Dashboard.GeneroMapMatchesChoices | usuarios/views.py:61-66 | The view's gender map gives each declared code its declared name, and holds exactly the declared codes. |
| Dashboard.GeneroLabel | usuarios/views.py:69 | A declared code is labelled with its declared name. Any other code passes through unchanged. |
| Dashboard.PorGenero | usuarios/views.py:67-74 | There is one item per group. `codigo` is the raw code, `genero` its label and `total` the group's count. |
| Dashboard.PorGeneroCorrect | usuarios/views.py:58-74 | Codes are distinct. Each total is that code's member count (positive). A code appears iff some member has it. Totals sum to the member count. |
| Dashboard.BandsPartition | usuarios/views.py:77-83 | A member with an age falls in exactly one band, and one without an age falls in none. |
| Dashboard.BandCountsAddUp | usuarios/views.py:77-83 | The five band counts sum to the number of members with an age. |
| Dashboard.PorFaixaEtaria | usuarios/views.py:77-83 | Each band is its filter's count, and together they count exactly the members with an age. |
| Dashboard.Ministerios | usuarios/views.py:86 | Null and empty ministries are excluded. |
| Dashboard.PorMinisterio | usuarios/views.py:86 | There are at most ten entries. |
| Dashboard.PorMinisterioShape | usuarios/views.py:86 | There is no empty or repeated ministry, totals are non-increasing, and each total is its ministry's member count. |
| Dashboard.PorMinisterioTop | usuarios/views.py:86 | A ministry left out has no more members than any listed one, and ten are listed. |
| Dashboard.DashboardView | usuarios/views.py:33-113 | The response's member counts are consistent. The gender totals sum to the member count, the age bands never exceed it, and at most ten ministries are listed. |
| MemberList.Excluir | frontend/src/pages/membros/ListagemMembros.jsx:13 | No member with the id remains, and every member with another id is kept. |
| MemberList.ExcluirKeepsOthers | frontend/src/pages/membros/ListagemMembros.jsx:13 | The result is a subsequence of the list, shorter by the number of members holding the id. |
| MemberList.ExcluirAbsent | frontend/src/pages/membros/ListagemMembros.jsx:13 | Deleting an id nobody has leaves the list unchanged. |
| MemberList.ExcluirIdempotent | frontend/src/pages/membros/ListagemMembros.jsx:13 | Deleting twice is deleting once. |
| MemberList.HandleExcluir | frontend/src/pages/membros/ListagemMembros.jsx:12-16 | The stored list equals the shown list, and it lacks the id while keeping the others in order. |
| MemberList.HandleDelete | frontend/src/pages/MembrosPage.jsx:36-54 | Without confirmation nothing changes. Only a successful answer removes the id from the list the handler captured. A failed answer or a network error shows its message and keeps the list. |
| MemberList.Filtrar | frontend/src/pages/MembrosPage.jsx:56-59 | A member is kept iff its lower-cased name or e-mail contains the lower-cased search text. A member with neither field is never kept. |
| MemberList.FiltrarKeepsOrder | frontend/src/pages/MembrosPage.jsx:56-59 | The result is a subsequence of the list. |
| MemberList.FiltrarEmpty | frontend/src/pages/MembrosPage.jsx:56-59 | With an empty search, a member is kept iff it has a name or an e-mail. |
| MemberList.FiltrarIgnoresCase | frontend/src/pages/MembrosPage.jsx:57-58 | Lower-casing the search text changes nothing. |

## Left out

- **Rendering, routing, layout and the placeholder pages:** these hold no logic that can be stated.
- **The network and storage calls themselves:**
  - `fetch` and axios calls become events and effects;
  - `localStorage` and `sessionStorage` become maps;
  - JSON serialisation of the stored member list is not modelled.
- **CSV download plumbing:** the Blob, the object URL, the link and the date-stamped file name (frontend/src/utils/export.js:114-132). The model stops at the content string.
- **The `alert` when there is nothing to export:** it is the `None` result of `CsvExport.ExportarCsv`.
- **Promise timing:** interleavings inside one callback are not modelled, because JavaScript runs each callback to completion. An `await` is the boundary between two events.
- **The periodic refresh timers** in the application shell.
- **JavaScript numbers as doubles:** numbers are unbounded integers here.
  - fractions and `NaN` are not modelled;
  - integers beyond 2^53 are not rounded;
  - `String(...)` of a magnitude of 1e21 or more gives exponent notation in JavaScript (`"1e+21"`), where the model gives all the digits.
- **Inherited properties:** property reads see own properties only.
  - `mapeamentoCampos[campo]` and `objeto[campo]` (frontend/src/utils/export.js:69 and 103) also reach `Object.prototype`, so a field named `constructor` gets a function as its label in JavaScript and its own name in the model;
  - `result.fieldErrors[key] = ...` (frontend/src/utils/parseApiErrors.js:19 and 21) with the key `__proto__` goes through the prototype setter and adds no key in JavaScript, where `ApiErrors.CollectFieldErrors` adds one.
- **JavaScript's own ordering of integer-like object keys:** object properties are kept in the order given.
- **Unicode case mapping:** `toLowerCase` lower-cases ASCII letters only, which is the classic form of CPF and e-mail search text.
- **Non-string inputs to the validators:**
  - in the CPF and telephone helpers a truthy non-string makes `replace` throw;
  - `validarEmail` passes a non-string to `regex.test`, which converts it with `String(...)` and does not throw;
  - validator inputs are modelled as optional strings.
- **Overlapping deletes:** `handleDelete` filters the member list captured when the page rendered, so two confirmed deletes that overlap keep only one removal. `MemberList.HandleDelete` takes that captured list as its input and models one delete.
- **The error branch of the request interceptor** (frontend/src/services/apiClient.js:59) passes errors through, and axios errors without a `config`: the client always attaches a configuration.
- **`formatarData`** (frontend/src/utils/validators.js:194-198) is the date formatter of the CSV export without the `try`. It is not part of this model.
- **The e-mail format check of Django's `EmailField`**, and calendar validity of `DateField`s, are not modelled.
- **`criado_em`, `atualizado_em` and the 30-day "recent members" count** depend on the clock.
- **usuarios/api/dashboard/views.py** uses wall-clock arithmetic and fields the user model does not define. It is not part of this model.
- **Serializers, JWT views, URL configuration, the admin, the seed script and the migration** are configuration or library code.
- **Row order of a database grouping is unspecified:**
  - groups appear in order of first occurrence;
  - ordering by total keeps that order among ties;
  - the proved properties do not depend on it.
- **`PositiveIntegerField`'s database upper bound** is left out: an age is only required not to be negative.
- Members.Insert: the table's checks are modelled as run before saving; a save that skips field validation is not modelled.
