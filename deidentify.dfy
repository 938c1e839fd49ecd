/**
 De-identification of DICOM records before they reach any downstream
 processing.

 A DICOM dataset is modelled as an object whose attributes form a map from
 attribute keyword to (stringified) value. The routine `Dataset.Scrub` walks
 the fixed list of identity-bearing keywords and, for each one the dataset
 actually has, encrypts the value (the ciphertext is then dropped) and
 overwrites the attribute in place with the marker "PROTECTED_DATA".

 The Fernet cipher is a foreign library: a configured cipher is an opaque
 value holding its key, and encryption is an arbitrary function passed in.
 */
module Deidentify {

  /* ---------------------------------------------------------------------
     Security setup: the master key comes from the secret store; without it
     the application shows an error and stops before any record is handled.
     --------------------------------------------------------------------- */

  /** Name of the secret that holds the Fernet master key. */
  const KeySecretName: string := "ENCRYPTION_KEY"

  /** Message shown when the master key is missing. */
  const MissingKeyMessage: string := "Security Error: Master Encryption Key not found."

  /** A configured Fernet cipher suite; its internals are not modelled. */
  datatype Cipher = Fernet(key: string)

  /** Outcome of the start-up key check: a usable cipher, or a halted app. */
  datatype Startup = Ready(cipher: Cipher) | Halted(message: string)

  /** Loads the cipher from the secret store, halting when the key is absent. */
  function LoadCipher(secrets: map<string, string>): (r: Startup)
  {
    if KeySecretName in secrets then Ready(Fernet(secrets[KeySecretName]))
    else Halted(MissingKeyMessage)
  }

  /* ---------------------------------------------------------------------
     The redaction specification.
     --------------------------------------------------------------------- */

  /** The marker that replaces every identity-bearing value. */
  const ProtectedMarker: string := "PROTECTED_DATA"

  /** The identity-bearing attribute keywords, in the order they are visited. */
  const PiiTags: seq<string> := ["PatientName", "PatientID", "PatientAddress", "InstitutionName"]

  /**
   Reference definition: every attribute whose keyword is in `tags` holds the
   marker, every other attribute keeps its value, and no attribute is added
   or removed.
   */
  function Redacted(attrs: map<string, string>, tags: seq<string>): (r: map<string, string>)
  {
    map k | k in attrs :: if k in tags then ProtectedMarker else attrs[k]
  }

  /** What de-identification must turn a record into. */
  function Scrubbed(attrs: map<string, string>): (r: map<string, string>)
  {
    Redacted(attrs, PiiTags)
  }

  /** One iteration of the loop: overwrite `tag` only if the record has it. */
  function RedactTag(attrs: map<string, string>, tag: string): (r: map<string, string>)
  {
    if tag in attrs then attrs[tag := ProtectedMarker] else attrs
  }

  /** The record after the loop has visited `tags`, one after the other. */
  function ApplyTags(attrs: map<string, string>, tags: seq<string>): (r: map<string, string>)
    decreases |tags|
  {
    if tags == [] then attrs
    else RedactTag(ApplyTags(attrs, tags[..|tags| - 1]), tags[|tags| - 1])
  }

  /** Visiting the tags one by one has the effect of the reference definition. */
  lemma {:induction false} ApplyTagsIsRedacted(attrs: map<string, string>, tags: seq<string>)
    ensures ApplyTags(attrs, tags) == Redacted(attrs, tags)
    decreases |tags|
  {
    if tags != [] {
      var init, last := tags[..|tags| - 1], tags[|tags| - 1];
      assert tags == init + [last];
      ApplyTagsIsRedacted(attrs, init);
      var before := Redacted(attrs, init);
      var after := RedactTag(before, last);
      assert after.Keys == attrs.Keys;
      forall k | k in attrs
        ensures after[k] == Redacted(attrs, tags)[k]
      {
        assert k in tags <==> k in init || k == last;
      }
    }
  }

  /**
   The effect of de-identification, key by key: a present identity-bearing
   attribute holds the marker whatever its old value (the empty string
   included), an absent one stays absent, every other attribute is unchanged,
   and the set of attribute keywords is the same.
   */
  lemma ScrubbedEffect(attrs: map<string, string>)
    ensures Scrubbed(attrs).Keys == attrs.Keys
    ensures forall k :: k in PiiTags && k in attrs ==> Scrubbed(attrs)[k] == ProtectedMarker
    ensures forall k :: k in PiiTags && k !in attrs ==> k !in Scrubbed(attrs)
    ensures forall k :: k !in PiiTags && k in attrs ==> Scrubbed(attrs)[k] == attrs[k]
  {
  }

  /** Presence is the only test: an empty identity-bearing value is redacted too. */
  lemma EmptyValueRedacted(attrs: map<string, string>, tag: string)
    requires tag in PiiTags && tag in attrs && attrs[tag] == ""
    ensures Scrubbed(attrs)[tag] == ProtectedMarker
  {
  }

  /**
   Two records scrub to the same record exactly when they have the same
   attribute keywords and agree on every attribute that is not
   identity-bearing: nothing of an identity value survives.
   */
  lemma ScrubbedHidesIdentity(attrs: map<string, string>, other: map<string, string>)
    ensures Scrubbed(attrs) == Scrubbed(other)
        <==> attrs.Keys == other.Keys && forall k :: k in attrs && k !in PiiTags ==> attrs[k] == other[k]
  {
    if attrs.Keys == other.Keys && forall k :: k in attrs && k !in PiiTags ==> attrs[k] == other[k] {
      assert Scrubbed(attrs).Keys == Scrubbed(other).Keys;
      forall k | k in attrs
        ensures Scrubbed(attrs)[k] == Scrubbed(other)[k]
      {
      }
    }
    if Scrubbed(attrs) == Scrubbed(other) {
      assert attrs.Keys == Scrubbed(attrs).Keys;
      assert other.Keys == Scrubbed(other).Keys;
      forall k | k in attrs && k !in PiiTags
        ensures attrs[k] == other[k]
      {
        assert Scrubbed(attrs)[k] == attrs[k];
      }
    }
  }

  /** Running the loop again over the same tags changes nothing. */
  lemma ApplyTagsIdempotent(attrs: map<string, string>, tags: seq<string>)
    ensures ApplyTags(ApplyTags(attrs, tags), tags) == ApplyTags(attrs, tags)
  {
    var once := ApplyTags(attrs, tags);
    ApplyTagsIsRedacted(attrs, tags);
    ApplyTagsIsRedacted(once, tags);
    assert Redacted(once, tags).Keys == once.Keys;
    forall k | k in once
      ensures Redacted(once, tags)[k] == once[k]
    {
    }
  }

  /** De-identifying an already de-identified record changes nothing. */
  lemma ScrubbedIdempotent(attrs: map<string, string>)
    ensures Scrubbed(Scrubbed(attrs)) == Scrubbed(attrs)
  {
    ApplyTagsIdempotent(attrs, PiiTags);
    ApplyTagsIsRedacted(attrs, PiiTags);
    ApplyTagsIsRedacted(Scrubbed(attrs), PiiTags);
  }

  /**
   A record with two identity attributes and one clinical attribute, run
   through the loop over the identity-bearing keywords.
   */
  lemma ExampleRecord()
    ensures ApplyTags(map["PatientName" := "Jane Doe", "PatientID" := "12345", "Modality" := "MR"], PiiTags)
         == map["PatientName" := ProtectedMarker, "PatientID" := ProtectedMarker, "Modality" := "MR"]
  {
    var input := map["PatientName" := "Jane Doe", "PatientID" := "12345", "Modality" := "MR"];
    var expected := map["PatientName" := ProtectedMarker, "PatientID" := ProtectedMarker, "Modality" := "MR"];
    ApplyTagsIsRedacted(input, PiiTags);
    assert "Modality" !in PiiTags;
    assert "PatientName" in PiiTags && "PatientID" in PiiTags;
    assert Scrubbed(input).Keys == expected.Keys;
  }

  /* ---------------------------------------------------------------------
     The record object and the in-place scrubbing routine.
     --------------------------------------------------------------------- */

  /** A DICOM dataset: its attributes, keyed by keyword. */
  class Dataset {
    var attrs: map<string, string>

    constructor (attrs0: map<string, string>)
      ensures attrs == attrs0
    {
      attrs := attrs0;
    }

    /**
     De-identifies this dataset in place and returns it. It runs only once
     the master key is configured; each present identity-bearing value is
     encrypted with `encrypt` under the cipher built from that key, the
     ciphertext is dropped, and the attribute is overwritten with the marker.
     The new state is `Scrubbed` of the old one for every `encrypt`, so it
     does not depend on what encryption returns.
     */
    method Scrub(secrets: map<string, string>, encrypt: (Cipher, string) -> string) returns (r: Dataset)
      requires LoadCipher(secrets).Ready?
      modifies this
      ensures r == this
      ensures attrs == Scrubbed(old(attrs))
    {
      var cipher := LoadCipher(secrets).cipher;
      for i := 0 to |PiiTags|
        invariant attrs == ApplyTags(old(attrs), PiiTags[..i])
      {
        var tag := PiiTags[i];
        assert PiiTags[..i + 1][..i] == PiiTags[..i];
        if tag in attrs {
          var encryptedVal := encrypt(cipher, attrs[tag]);
          attrs := attrs[tag := ProtectedMarker];
        }
      }
      assert PiiTags[..|PiiTags|] == PiiTags;
      ApplyTagsIsRedacted(old(attrs), PiiTags);
      r := this;
    }
  }

  /**
   The key check at start-up followed by a caller's later request to scrub
   a record. app.py never calls the scrubbing routine itself; it can be
   called only after the check, since the routine is defined after the point
   where a missing key stops the app. So a missing key leaves the record
   untouched, and with a key a later scrub leaves it `Scrubbed`.
   */
  method Start(secrets: map<string, string>, ds: Dataset, encrypt: (Cipher, string) -> string)
    returns (s: Startup)
    modifies ds
    ensures s == LoadCipher(secrets)
    ensures s.Halted? ==> ds.attrs == old(ds.attrs)
    ensures s.Ready? ==> ds.attrs == Scrubbed(old(ds.attrs))
  {
    s := LoadCipher(secrets);
    if s.Ready? {
      var scrubbed := ds.Scrub(secrets, encrypt);
    }
  }

  /** Scrubbing twice leaves the record as scrubbing once did. */
  method ScrubTwice(ds: Dataset, secrets: map<string, string>, encrypt: (Cipher, string) -> string)
    requires LoadCipher(secrets).Ready?
    modifies ds
    ensures ds.attrs == Scrubbed(old(ds.attrs))
  {
    var once := ds.Scrub(secrets, encrypt);
    var twice := once.Scrub(secrets, encrypt);
    ScrubbedIdempotent(old(ds.attrs));
  }
}
