# oa-bypass: credential resolver and file upload

oa-bypass is a stateless HTTP proxy in front of the OpenAI REST API. Each
caller sends their own API key in the `Authorization` header. Every handler
turns that header into an upstream client configuration and makes one call
through the `async_openai` SDK. This project models the two parts of the proxy
that contain logic, and proves properties about them:

- **The credential resolver** (`create_client_from_headers`, src/utils.rs).
  `Credentials.Resolve` is a pure function. It takes the request's header
  fields and the `use_beta` flag, and returns either a `Config` or one of
  three errors:
  - `HeaderNotFound`: there is no `authorization` field.
  - `InvalidFormat`: the value is not text.
  - `EmptyKey`: the key is empty after one leading `Bearer ` or `bearer ` is
    removed.

  With the flag set, the configuration carries `OpenAI-Beta: assistants=v2`.
  `ApiFamilies.UsesBeta` records the flag each handler family passes. The flag
  is set for assistants, threads, messages and runs, and off for every other
  family.
- **File upload** (`upload_file`, src/routes/files.rs).
  `Files.UploadFile` keeps the handler's shape:
  1. A `while` loop over the multipart fields fills three optional locals
     (file bytes, file name and purpose). A later field overwrites an earlier
     one, and the first read failure aborts.
  2. The locals are checked in order: file, then file name, then purpose.
  3. The credential is resolved without the beta flag.
  4. The purpose is mapped, and the outbound request is assembled.

  The method is proved equal to the pure function `Files.Upload`.
  `Upload` first runs `Files.Collect`, a left fold of the loop body
  (`Files.Step`) over the fields. It then applies the three slot checks,
  the resolver call and the request assembly. `FilesProperties` proves what
  the fold and the handler do: last write wins, ignored fields, the error
  order, and the exact request built on success.

The header map is a sequence of fields in arrival order. A lookup compares
names without regard to ASCII case and returns the first match. `HeaderMap::get`
behaves the same way. As a result, the second lookup of `"Authorization"` at
src/utils.rs:35 can never find a field that the first lookup missed
(`Credentials.FallbackIsRedundant`). The model keeps both lookups, as the code
does.

`HeaderValue::to_str` belongs to the `http` crate. `Headers.ToStr` models it
with that crate's rule: a value is text when every octet is visible ASCII
(0x20–0x7E) or a horizontal tab, and each octet becomes one character.

The doc comment at src/routes/files.rs:20 says the purpose defaults to
`assistants`. The code (line 81) rejects an upload that has no purpose field.
`assistants` is only the fallback for a purpose text it does not recognise.
The model follows the code (`FilesProperties.MissingPurposeFails`).

`Resolve` is a Dafny function, so identical headers and flag always give the
same result.

## Model

| member | source | states |
|---|---|---|
| Headers.Get | src/utils.rs:33-35 | The lookup finds nothing exactly when no field's name matches the key ignoring ASCII case. Otherwise it returns the value of the first matching field. |
| Headers.GetIgnoresKeyCase | src/utils.rs:33-35 | Two keys that differ only in ASCII case find the same value. |
| Headers.ToStrIsEncode | src/utils.rs:39-41 | Every value that reads as text is exactly what a client sends for that text. So the lemmas stated for `Encode(s)` cover every readable header value. |
| Headers.ToStrEncode | src/utils.rs:39-41 | Reading back the octets sent for a text gives that text. |
| Headers.ToStr | src/utils.rs:39-41 | A value converts to text exactly when every octet is visible ASCII or a tab. The text has one character per octet, with the same code. |
| Credentials.StripScheme | src/utils.rs:44-48 | A value starting with `Bearer ` or `bearer ` loses exactly its first seven characters. Any other value, including `BEARER …`, is kept whole. The key is therefore always the value or a suffix of it. |
| Credentials.ResolveValue | src/utils.rs:39-62 | After a field is found, success means the value is text and the key is that text with its scheme prefix removed. The key is non-empty. The extra headers are exactly `[OpenAI-Beta: assistants=v2]` when the flag is set, and none otherwise. |
| Credentials.AuthError.Message | src/utils.rs:33-52 | The three texts at lines 36, 41 and 51. A caller can tell the failure from the text's opening words: `Authorization` means the header is missing, `Неверный` means the format is invalid, and `API` means the key is empty. Each holds in both directions. |
| Credentials.Resolve | src/utils.rs:31-65 | Every successful resolution has a non-empty key. The beta header is present if and only if `use_beta` is set, and no other extra header is added. |
| Credentials.FallbackIsRedundant | src/utils.rs:33-35 | Looking up `Authorization` gives the same result as looking up `authorization`. |
| Credentials.ResolveReadsFirstAuthorization | src/utils.rs:33-36 | The credential comes from the first field named `authorization` in any letter case. Later fields with that name are never consulted. |
| Credentials.ResolveHeaderNotFound | src/utils.rs:33-36 | The result is `HeaderNotFound` if and only if no field is named `authorization` in any letter case. |
| Credentials.ResolveValueInvalidFormat | src/utils.rs:39-41 | A found value fails with `InvalidFormat` if and only if it is not text. A non-text value never reaches the empty-key check. |
| Credentials.ResolveValueEmptyKey | src/utils.rs:50-52 | The result is `EmptyKey` if and only if the text is exactly `""`, `"Bearer "` or `"bearer "`. Nothing is trimmed. |
| Credentials.ResolveBearer | src/utils.rs:44-48 | The values `Bearer k` and `bearer k`, with `k` non-empty, both resolve to the key `k`. |
| Credentials.ResolveVerbatim | src/utils.rs:44-48 | A non-empty value with neither prefix resolves to itself as the key. |
| Credentials.UppercaseSchemeIsKept | src/utils.rs:44-47 | `BEARER k` is not stripped. |
| Credentials.StripsOnlyOnce | src/utils.rs:44-47 | `Bearer bearer k` becomes `bearer k`: at most one prefix is removed. |
| Credentials.BetaFlagOnlyAddsHeader | src/utils.rs:55-62 | Both flag values fail with the same error, or succeed with the same key. Only the flag-set configuration carries the beta header. |
| Credentials.MessagesDistinguishErrors | src/utils.rs:33-52 | The three errors have three different messages. |
| ApiFamilies.UsesBeta | src/routes/assistants.rs:43 | The flag each family's handlers pass. It is true if and only if the family is assistants, threads, messages or runs. This matches every resolver call in src/routes/. |
| ApiFamilies.ConversationFamiliesSendBeta | src/routes/assistants.rs:43 | Assistants, threads, messages and runs handlers resolve with the beta header. The flag is passed at assistants.rs:43, threads.rs:34, messages.rs:36 and runs.rs:38. |
| ApiFamilies.OtherFamiliesSendNoBeta | src/routes/completions.rs:49 | Completions, embeddings, models, images, files and responses handlers resolve with no extra header. The flag is passed at completions.rs:49, embeddings.rs:31, models.rs:30, images.rs:28, files.rs:83 and responses.rs:32. |
| Files.PurposeOf | src/routes/files.rs:85-89 | `FineTune` is chosen if and only if the purpose text is exactly `fine-tune`. Every other text, including `Fine-Tune`, gives `Assistants`. |
| Files.UploadError.Message | src/routes/files.rs:49-81 | The texts at lines 52, 63, 72 and 79-81. Each of the three read errors holds if and only if the text starts with its own prefix (`Multipart error: `, `File read error: `, `Purpose read error: `). A credential error keeps the resolver's text unchanged, as `?` passes it through at line 83. |
| Files.UploadMessagesDistinguishErrors | src/routes/files.rs:49-83 | Two upload errors with the same text are the same error, including the detail. The single `AppError` string identifies the failure. |
| Files.Step | src/routes/files.rs:54-76 | One pass of the loop body. It fails only with a read error, and succeeds only on a field. A field not named `file` leaves the bytes and file name unchanged. A field not named `purpose` leaves the purpose unchanged. Filled file bytes never become empty again. |
| Files.CollectFrom | src/routes/files.rs:49-77 | The `while let` loop from given slots. It fails only with a Multipart, File read or Purpose read error. It keeps the invariant that a file name is present only together with file bytes. |
| Files.Collect | src/routes/files.rs:45-77 | The loop from three empty locals. It fails only with a read error. On success, a file name is never present without file bytes, so `Filename not provided` can only follow a `file` field that had no file name. |
| Files.Upload | src/routes/files.rs:45-100 | The handler up to the upstream call. On success, the configuration is the resolver's with the flag off, with no extra header, and `expires_after` is None. A credential error is exactly the resolver's error. |
| Files.UploadFile | src/routes/files.rs:38-100 | The field loop over three mutable locals, followed by the checks, the credential and the request assembly, returns exactly what the fold `Files.Upload` specifies. |
| FilesProperties.CollectFromConcat | src/routes/files.rs:49-77 | Folding `a + b` folds `a` first. A failure stops the fold; otherwise `b` is folded from the slots `a` left. |
| FilesProperties.CollectFromSucceeds | src/routes/files.rs:49-77 | The loop finishes without error if and only if every `next_field` call yields a field and every `bytes()`/`text()` read it performs succeeds. |
| FilesProperties.FirstReadErrorWins | src/routes/files.rs:49-73 | The first field that cannot be read decides the error, whatever follows it. |
| FilesProperties.IgnoredField | src/routes/files.rs:54-75 | A field named neither `file` nor `purpose`, including an unnamed one, changes nothing wherever it appears. |
| FilesProperties.FoldKeepsFileSlots | src/routes/files.rs:57-66 | Fields not named `file` leave the file bytes and file name unchanged. |
| FilesProperties.FoldKeepsPurposeSlot | src/routes/files.rs:67-74 | Fields not named `purpose` leave the purpose unchanged. |
| FilesProperties.LastFileFieldWins | src/routes/files.rs:57-66 | After the loop, the bytes and the file name both come from the last `file` field. If that field has no file name, the file name is None. |
| FilesProperties.LastPurposeFieldWins | src/routes/files.rs:67-74 | After the loop, the purpose is the text of the last `purpose` field. |
| FilesProperties.NoFileField | src/routes/files.rs:45-66 | With no `file` field, both the bytes and the file name stay None. |
| FilesProperties.NoPurposeField | src/routes/files.rs:47-74 | With no `purpose` field, the purpose stays None. |
| FilesProperties.MissingFileIgnoresCredential | src/routes/files.rs:79-83 | A readable body with no `file` field fails with `File not provided` for any headers, including none. |
| FilesProperties.MissingFilenameFails | src/routes/files.rs:79-80 | If the last `file` field has no file name, the upload fails with `Filename not provided`, even when an earlier `file` field had one. |
| FilesProperties.MissingPurposeFails | src/routes/files.rs:79-81 | A readable body with a named file but no `purpose` field fails with `Purpose not provided`. |
| FilesProperties.FieldErrorsPrecedeCredential | src/routes/files.rs:79-83 | Every error other than a credential error is the same for any headers. |
| FilesProperties.CredentialErrorComesLast | src/routes/files.rs:79-83 | A credential error occurs only when the loop succeeded and all three slots are filled. It is the resolver's own error, with the flag off. |
| FilesProperties.UploadRequestContents | src/routes/files.rs:83-100 | On success, the request carries the last `file` field's file name and bytes, and the mapped purpose of the last `purpose` field. `expires_after` is None. The client configuration is the resolver's, with no beta header. |
| FilesProperties.UploadSucceedsIff | src/routes/files.rs:45-100 | The upload succeeds if and only if all four hold: every field reads cleanly, the last `file` field has a file name, some `purpose` field exists, and the credential resolves. |
| FilesProperties.LastExists | src/routes/files.rs:49-77 | If any field is named `n`, there is a last field named `n`. |

## Left out

- The upstream call (`client.files().create`, src/routes/files.rs:102-112). It is a network call into the SDK. The model stops at the configuration and request the handler would send (`Files.OutboundUpload`).
- Every other handler in src/routes/, plus `list_files`, `get_file`, `delete_file` and `get_file_content`. Each resolves a credential with its family's flag and makes one SDK call. Only the flag is modelled (`ApiFamilies`).
- src/routes/mod.rs (routing table, health text) and src/main.rs (logging, CORS, binding the socket). This is framework wiring and I/O.
- src/error.rs: converting every `AppError` into a 500 response with the prefix `Ошибка: `. Errors are modelled by kind; `Message()` gives the text the source puts in the `AppError`.
- `OpenAIConfig::with_header` is treated as infallible. Its name and value are constants that form a valid header, so the error branch at src/utils.rs:61 is not modelled.
- The internals of the SDK's `OpenAIConfig` and `Client`. `Config` keeps only the API key and the extra headers the resolver adds.
- Multipart streaming and UTF-8 decoding. Each `Field` carries what its `bytes()` and `text()` reads would return, and `Broken` stands for a `next_field` failure. Error details are opaque strings.
- `FilePurpose` has only the two variants this handler can produce. The SDK's other purposes are unreachable here. `ExpiresAfter` appears only as the type of a field that is always None.
- Logging through `tracing`, and the inert application state passed to every handler.
