# DICOM de-identification, modelled in Dafny

This project models the de-identification routine of the Universal Cancer
Navigator (`app.py`). The routine receives a DICOM dataset and strips the
identity-bearing attributes `PatientName`, `PatientID`, `PatientAddress` and
`InstitutionName` before the record goes anywhere else. It visits those four
keywords in order. For each keyword the dataset has, it encrypts the value
with the Fernet master key and then overwrites the attribute in place with
the marker `"PROTECTED_DATA"`. It returns the same dataset object. Clinical
attributes such as age and sex are kept.

The model is one module, `Deidentify` (`deidentify.dfy`):

- `LoadCipher` is the start-up key check. If the secret store holds
  `ENCRYPTION_KEY`, it yields a configured cipher. If not, the app halts with
  the message `Security Error: Master Encryption Key not found.`. `Start`
  is the key check followed by a caller's later scrub of a record. `app.py`
  never calls `scrub_dicom` itself; it can be called only after the check,
  because the function is defined after the point where a missing key stops
  the app. So no record is touched without a key.
- `Dataset` is a class whose field `attrs: map<string, string>` holds the
  dataset's attributes. `Dataset.Scrub` runs the source's loop over the tag
  list and updates `attrs` in place.
- `Redacted` and `Scrubbed` are the reference definition, written as a map
  comprehension. `ApplyTags` is the loop's effect written as a left fold, one
  tag per step. `ApplyTagsIsRedacted` proves that the two agree.
- `encrypt_data` is the parameter `encrypt: (Cipher, string) -> string` of
  `Scrub`, which requires a configured key and encrypts under the cipher
  built from it. No property of `encrypt` is assumed. Because `Scrub`'s postcondition holds
  for every `encrypt`, the final record does not depend on what encryption
  returns. This matches the source, which computes the ciphertext and then
  throws it away.

## Model

| member | source | states |
|---|---|---|
| `Deidentify.Start` | app.py:6-10 | The start-up outcome is the key check's: a cipher built from `ENCRYPTION_KEY` when that secret exists, otherwise a halt with the missing-key message. After a halt the record is untouched. With a key, a caller's later scrub leaves the record `Scrubbed`. |
| `Deidentify.Dataset.Scrub` | app.py:16-24 | It runs only once the master key is configured, and encrypts under the cipher built from it. The method returns the very object it was given. Its new attributes are `Scrubbed` of the old ones, for every encryption function. So the encrypted value is never kept and does not affect the result. |
| `Deidentify.ApplyTagsIsRedacted` | app.py:19-23 | Visiting any tag list one tag at a time gives the reference map: every present listed tag is set to the marker, and nothing else changes. |
| `Deidentify.ScrubbedEffect` | app.py:18-23 | The layout of the record is kept: both records have the same keywords. Each present identity tag holds `"PROTECTED_DATA"`. Each absent identity tag stays absent. Each other attribute keeps its value. |
| `Deidentify.EmptyValueRedacted` | app.py:20-23 | A present identity tag with the empty string as its value is redacted too, because presence is the only guard. |
| `Deidentify.ScrubbedIdempotent` | app.py:18-24 | Scrubbing an already scrubbed record yields the same record. |
| `Deidentify.ScrubbedHidesIdentity` | app.py:17-23 | Two records scrub to the same record if and only if they have the same keywords and the same non-identity values. So nothing of an identity value survives, and every clinical value does. |
| `Deidentify.ApplyTagsIdempotent` | app.py:19-23 | Running the loop over a tag list a second time, on its own output, changes nothing, for any tag list. |
| `Deidentify.ExampleRecord` | app.py:16-24 | Worked example: the loop over the four identity keywords turns `{PatientName: "Jane Doe", PatientID: "12345", Modality: "MR"}` into `{PatientName: PROTECTED_DATA, PatientID: PROTECTED_DATA, Modality: MR}`. |
| `Deidentify.ScrubTwice` | app.py:18-24 | Calling the in-place routine a second time on its own output leaves the attributes as one call left them. |

## Left out

- Fernet internals (app.py:1, 7, 14): encryption is an opaque function parameter. Its randomness, key-format check and round-trip are not modelled, because the code never decrypts.
- Streamlit I/O (app.py:2, 9-10): reading `st.secrets`, `st.error` and `st.stop` become the pure result `Halted(message)` of `LoadCipher`. The process stop is modelled only as `Start` returning before the record is touched; the rest of the script is not modelled.
- DICOM value types and `str()` coercion (app.py:22): attribute values are strings, so `str` is the identity. `hasattr`, `getattr` and `setattr` become map membership, lookup and update.
- claude-app.py is not part of this model: it holds only page layout, an HTTP query to ClinicalTrials.gov and a call to a hosted language model, none of which has internal invariants.
- Deidentify.LoadCipher: any string stored under `ENCRYPTION_KEY` yields a cipher. In the source, `Fernet(...)` at app.py:7 raises `ValueError` on a key that is not 32 url-safe base64-encoded bytes. That check belongs to the foreign library and is not modelled.
- Recovery: the code keeps no ciphertext and has no decryption path (app.py:22), so no recovery ledger or per-field recovery is modelled.
