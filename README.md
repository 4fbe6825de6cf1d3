# gotify-authentik-plugin: the payload translator in Dafny

This project models `ReturnGotifyMessageFromAuthentikPayload`. The function
turns an authentik webhook payload into a Gotify notification made of a title,
a message and a priority. The payload's `body` holds an event record written as
Python-literal text behind an event prefix. The translator handles it in one of
three ways:

- `login_failed: ` — strip the prefix and turn every `'` into `"`. Then decode a
  `LoginFailedData` record. A decode error gives priority 7. Success gives the
  failed-login report with priority 8.
- `login: ` — strip the prefix and turn every `'` into `"`. Then replace every
  `True` with `"true"` and every `False` with `"false"`. Then decode a
  `LoginData` record. A decode error gives priority 7. Success gives the
  successful-login report with priority 5.
- any other body — `Unrecognized Event`, with the body as the message and
  priority 5.

Files:

- `go_strings.dfy` (module `GoStrings`) models Go's `strings.HasPrefix`,
  `strings.TrimPrefix` and `strings.ReplaceAll` on sequences of characters.
  `ReplaceAll` works left to right on non-overlapping occurrences. With an empty
  pattern it inserts the replacement around every rune, as Go does. The module
  also proves the facts that the normalisation needs.
- `auth_events.dfy` (module `AuthEvents`) holds the record structs of
  auth_events.go:9-74 as datatypes, the dispatch (`Classify`), the two rewritings, the message
  templates, `Translate` and the properties of the translator.

A `Host` value is passed to `Translate`. It carries `json.Unmarshal` for each
record type, as a function from text to `Ok(record)` or `Err(error text)`. It
also carries the `%f` rendering of a `float64`. Nothing is assumed about these
functions beyond their types. Where a lemma needs more (for example, that
decoder errors carry text), the lemma says so in its `requires`.

The code replaces `True` and `False` wherever they occur, not only where they
stand as bare boolean literals: a quoted value that contains them is rewritten
too. The model does the same, and `TrueInsideValueRewritten` shows the effect
on the value `'TrueNAS'`. `NormalizeLoginFragmentRewritesTrue` and
`NormalizeLoginFragmentRewritesFalse` give the rewriting of any record, one
leftmost literal at a time. As an instance, `PythonRecordBecomesJson` shows
that a flat record of two boolean fields comes out as JSON text, with the
booleans as strings.

The success branch reports a decode error under the title
`Error parsing login_failed data`, the same title as the failure branch. The
model keeps this text as written.

## Model

| member | source | states |
|---|---|---|
| `GoStrings.HasPrefix` | auth_events.go:77 | a body begins with a prefix exactly when the prefix is no longer than the body and the prefix followed by the rest of the body is the body |
| `GoStrings.TrimPrefix` | auth_events.go:79 | when the body begins with the prefix, the prefix followed by the result is the body; otherwise the body is returned unchanged |
| `GoStrings.InsertAroundRunes` | auth_events.go:80 | library behaviour of `strings.ReplaceAll` that line 80 never reaches, since its patterns are not empty; kept so that `ReplaceAll` is total and matches Go. An empty pattern puts the replacement before every rune and at the end: the result is as long as the text plus one replacement per gap, and each of its characters comes from the text or the replacement |
| `GoStrings.ReplaceAll` | auth_events.go:80 | every character of the result comes from the input or from the replacement |
| `GoStrings.ReplaceAllSingleChar` | auth_events.go:80 | replacing one character by another keeps the length, changes every position that held the replaced character, and no other position |
| `GoStrings.ReplaceAllAbsent` | auth_events.go:94-96 | replacing a pattern that does not occur returns the text unchanged |
| `GoStrings.ReplaceAllSelf` | auth_events.go:80 | library behaviour of `strings.ReplaceAll` that line 80 never reaches, since its pattern and replacement differ; it shows the model agrees with Go's early return when old equals new: replacing a pattern by itself returns the text unchanged |
| `GoStrings.ReplaceAllKeep` | auth_events.go:95-96 | when no occurrence of the pattern starts inside a leading piece of text, the replacement copies that piece and continues with what follows it |
| `GoStrings.ReplaceAllSplit` | auth_events.go:95-96 | the replacement finds the leftmost occurrence: text `a + p + b` with no occurrence of `p` starting in `a` becomes `a`, then the replacement, then the replacement of `b` |
| `GoStrings.ReplaceAllLeavesNoOccurrence` | auth_events.go:95-96 | after a replacement, a string does not occur in the result when it is the pattern or was absent before, and the replacement neither holds it nor lends it its first or last character |
| `AuthEvents.Classify` | auth_events.go:77-107 | the failure branch is taken exactly when the body begins with `login_failed: `, the success branch exactly when it begins with `login: `, and the fallback exactly when it begins with neither |
| `AuthEvents.PrefixesExclusive` | auth_events.go:77-91 | no body begins with both `login_failed: ` and `login: ` |
| `AuthEvents.NormalizeQuotes` | auth_events.go:79-80 | the rewritten failure record has the input's length and holds no `'`; each `'` became `"` and every other position is unchanged, so text without `'` comes back unchanged |
| `AuthEvents.NormalizeQuotesConcat` | auth_events.go:80 | the quote rewriting of two joined texts is the join of their rewritings |
| `AuthEvents.NormalizeQuotesIdempotent` | auth_events.go:80 | rewriting quotes a second time changes nothing |
| `AuthEvents.NormalizeLoginFragment` | auth_events.go:93-96 | the rewritten login record holds no `'`, no `True` and no `False`, and a record that holds none of them comes back unchanged |
| `AuthEvents.QuotesKeepOccurrence` | auth_events.go:94-96 | a pattern with no `'` and no `"` occurs at a position after the quote rewriting exactly when it did before |
| `AuthEvents.NormalizeQuotesAround` | auth_events.go:94 | the quote rewriting of `a + p + b`, for `p` without `'`, is the rewriting of `a`, then `p`, then the rewriting of `b` |
| `AuthEvents.NormalizeLoginFragmentQuotesFirst` | auth_events.go:94-96 | rewriting quotes before the login rewriting changes nothing, since that rewriting begins with the same step |
| `AuthEvents.UnquotedRewritesTrue` | auth_events.go:94-96 | for a record whose text before its leftmost `True` holds no `'` and no `False`, the rewriting emits that text, then `"true"`, then the rewriting of the rest |
| `AuthEvents.UnquotedRewritesFalse` | auth_events.go:94-96 | for a record whose text before its leftmost `False` holds no `'` and no `True`, the rewriting emits that text, then `"false"`, then the rewriting of the rest |
| `AuthEvents.NormalizeLoginFragmentRewritesTrue` | auth_events.go:94-96 | at the leftmost `True` of any login record whose text before it holds no `False`, the rewriting emits that text with its `'` made `"`, then `"true"`, then the rewriting of the rest |
| `AuthEvents.NormalizeLoginFragmentRewritesFalse` | auth_events.go:94-96 | at the leftmost `False` of any login record whose text before it holds no `True`, the rewriting emits that text with its `'` made `"`, then `"false"`, then the rewriting of the rest |
| `AuthEvents.PlainUnchanged` | auth_events.go:94-96 | text with no `'`, `T` or `F` comes out of the login rewriting unchanged |
| `AuthEvents.QuotedKey` | auth_events.go:94 | the opening `'key': ` of a field after plain text becomes `"key": ` under the quote rewriting |
| `AuthEvents.TrueFieldRewritten` | auth_events.go:94-96 | a field `'key': True` after plain text becomes `"key": "true"`, and the rewriting continues after it |
| `AuthEvents.FalseFieldRewritten` | auth_events.go:94-96 | a field `'key': False` after plain text becomes `"key": "false"`, and the rewriting continues after it |
| `AuthEvents.LastFieldRewritten` | auth_events.go:94-96 | a closing field `, 'key': False}` becomes `, "key": "false"}` |
| `AuthEvents.PythonRecordBecomesJson` | auth_events.go:94-96 | for any keys without `'`, `T` or `F`, the flat record of two boolean fields `{'k1': True, 'k2': False}` comes out as the JSON text `{"k1": "true", "k2": "false"}` |
| `AuthEvents.TrueStepKeepsFalse` | auth_events.go:95 | the `True` replacement leaves a `False`, and the `True`-free text before it, in place |
| `AuthEvents.LoginNormalizationClean` | auth_events.go:94-96 | text without `'`, after the `True` and `False` replacements, holds no `'`, no `True` and no `False` |
| `AuthEvents.NormalizeLoginFragmentIdempotent` | auth_events.go:94-96 | applying the three replacements a second time changes nothing |
| `AuthEvents.LoginFailedFragment` | auth_events.go:79-80 | the text the failure branch decodes holds no `'`; for a `login_failed: ` body it is as long as what follows the prefix and equals it position by position, with each `'` made `"` |
| `AuthEvents.LoginFragment` | auth_events.go:93-96 | the text the success branch decodes holds no `'`, `True` or `False`; for a `login: ` body whose rest already holds none of them it is exactly that rest |
| `AuthEvents.LoginFailedTitle` | auth_events.go:86 | the title begins with `Login failed for `, and removing that lead gives back the username |
| `AuthEvents.LoginFailedMessage` | auth_events.go:87 | the template is written out piece by piece as in the format string; the message opens with `Login attempt failed for user: ` plus the username, contains `Failed at stage: ` plus the stage name, and ends with `RequestID: ` plus the request id |
| `AuthEvents.LoginTitle` | auth_events.go:102 | the title is the envelope's username followed by ` just logged in`, and no longer than those two |
| `AuthEvents.LoginMessage` | auth_events.go:103 | the template is written out piece by piece as in the format string; the message opens with `Successful login from user: ` plus the envelope's username, contains `From: ` plus the decoded city, country and continent separated by `, `, and ends with `RequestID: ` plus the request id |
| `AuthEvents.TemplatePieces` | auth_events.go:87 | a text joined from five pieces begins with the first, contains the third and ends with the last |
| `AuthEvents.Translate` | auth_events.go:76-112 | the priority is 5, 7 or 8 on every body. A decode error in either branch gives the title `Error parsing login_failed data`, the decoder's error text and priority 7. A decoded failure record gives `Login failed for ` plus the username, the failure report and priority 8. A decoded login record gives the envelope's username plus ` just logged in`, the login report and priority 5. Any other body gives `Unrecognized Event`, the body unchanged and priority 5 |
| `AuthEvents.LoginTitleIgnoresRecord` | auth_events.go:102-105 | for a `login: ` body, any two decoders that accept the record yield the same title and priority 5, whatever records they produce |
| `AuthEvents.DecodeErrorIsPriority7` | auth_events.go:82-99 | for any decoders, priority 7 is given exactly when a recognised body fails to decode |
| `AuthEvents.DecodeErrorReported` | auth_events.go:82-99 | priority 7 comes with the title `Error parsing login_failed data`, and with a non-empty message when the decoders' errors are non-empty |
| `AuthEvents.UnquotedFailedRecordReported` | auth_events.go:79-83 | a failure record without `'` reaches the decoder exactly as it follows the prefix, and the decoder's error on it is returned with priority 7 |
| `AuthEvents.InvalidFailedRecordReported` | auth_events.go:77-84 | the body `login_failed: not-valid-json` with a failing decoder yields the parse-error title, priority 7 and a non-empty message |
| `AuthEvents.UnrecognizedBodyEchoed` | auth_events.go:107-111 | the body `something else` yields `Unrecognized Event`, `something else` and priority 5 |
| `AuthEvents.TrueInsideValueRewritten` | auth_events.go:95 | the login rewriting turns `'TrueNAS'` into `""true"NAS"`: `True` inside a quoted value is replaced too |

## Left out

- `encoding/json.Unmarshal` (auth_events.go:82, 98) is supplied by the `Host` as a function with no body of its own in the model. Go's decoding rules are not modelled: case-insensitive keys, unknown fields, numeric conversion and the text of its errors.
- `float64` values (`Geo.Lat`, `Geo.Long`) are kept as their 64 bits. Their `%f` rendering in the failed-login message is the `Host`'s `formatFloat`.
- `fmt.Sprintf` is written out as string concatenation of the same template pieces. `%s` of a Go string is that string.
- Go strings are bytes, and the model's strings are sequences of characters. The three patterns are ASCII, so replacing characters and replacing UTF-8 bytes give the same text for valid UTF-8. Invalid UTF-8 in a body is not modelled.
- The Go `int` fields `ASN.ASN` and `MFADevice.PK` are unbounded integers. The translator never reads them.
- Fields the output never reads are kept in the datatypes without properties. In the envelope these are `Severity`, `UserUsername` and the two e-mail fields. In the failed-login record they are `Password` and `DeviceClass`. In the login record they are `AuthMethod`, `AuthMethodArgs` with its MFA devices, the `ASN` and the coordinates. In the nested records they are `ASN.ASN`, `Stage.PK`, `Stage.App`, `Stage.ModelName` and every field of `HTTPRequest` except `RequestID`.
- The HTTP listener that receives webhooks and the client that sends notifications to Gotify are not part of this model. Both are I/O.
