/** A certificate record that hashes its own fields (blockchain/certificate.js),
    and the payloads that blocks carry. */
module Certificates {
  import opened Strings
  import opened Hashing

  /** What a block carries: the genesis marker (`type: 'genesis'`) or the
      storable form of a certificate (`type: 'certificate'`). */
  datatype Payload =
    | GenesisData(message: string, timestamp: nat)
    | CertificateData(
        certificateId: string,
        studentName: string,
        institutionName: string,
        courseName: string,
        grade: string,
        issueDate: string,
        timestamp: nat,
        certificateHash: string)

  /** The fields of a certificate object, as a value. */
  datatype CertificateRecord = CertificateRecord(
    certificateId: string,
    studentName: string,
    institutionName: string,
    courseName: string,
    grade: string,
    issueDate: string,
    timestamp: nat,
    certificateHash: string)

  /** The display projection; the locale rendering of the timestamp is not
      modelled, the record keeps the raw milliseconds. */
  datatype FormattedCertificate = FormattedCertificate(record: CertificateRecord, isValid: bool)

  const CertificateIdPrefix := "CERT-"

  /** The shape of a generated id: `CERT-` then 16 upper-case hex digits. */
  predicate IsGeneratedId(id: string)
  {
    |id| == 21 && id[..5] == CertificateIdPrefix &&
    forall i :: 5 <= i < 21 ==> IsUpperHexChar(id[i])
  }

  /** `'CERT-' + randomBytes(8).toString('hex').toUpperCase()`, with the eight
      random bytes supplied by the caller. */
  function GenerateCertificateId(entropy: seq<Byte>): (id: string)
    requires |entropy| == 8
    ensures IsGeneratedId(id)
  {
    var hex := HexEncode(entropy);
    var upper := ToUpperCase(hex);
    assert forall i :: 0 <= i < 16 ==> upper[i] == UpperChar(hex[i]) && IsLowerHexChar(hex[i]);
    CertificateIdPrefix + upper
  }

  /** `crypto.randomBytes(8)`: eight bytes the model leaves unconstrained.
      Callers that need an id drawn afresh pass them on as `entropy`. */
  method RandomBytes() returns (entropy: seq<Byte>)
    ensures |entropy| == 8
  {
    // A witness that eight-byte sequences exist, for the choice below.
    ghost var zeros: seq<Byte> := [0, 0, 0, 0, 0, 0, 0, 0];
    assert |zeros| == 8;
    entropy :| |entropy| == 8;
  }

  /** What is digested, in this order: id, the five business fields, then the
      timestamp. */
  function HashedParts(r: CertificateRecord): seq<string>
  {
    [r.certificateId, r.studentName, r.institutionName, r.courseName,
     r.grade, r.issueDate, DecimalString(r.timestamp)]
  }

  /** The digest input: the parts concatenated with no separator. */
  function CertificatePreimage(r: CertificateRecord): string
  {
    Concat(HashedParts(r))
  }

  /** The parts joined in order are the string `calculateCertificateHash()`
      digests. */
  lemma HashedPartsJoin(r: CertificateRecord)
    ensures CertificatePreimage(r) ==
            r.certificateId + r.studentName + r.institutionName + r.courseName
            + r.grade + r.issueDate + DecimalString(r.timestamp)
  {
    var a, b, c, d := r.certificateId, r.studentName, r.institutionName, r.courseName;
    var e, f, g := r.grade, r.issueDate, DecimalString(r.timestamp);
    ConcatAppend([], a);
    assert [] + [a] == [a];
    ConcatAppend([a], b);
    assert [a] + [b] == [a, b];
    ConcatAppend([a, b], c);
    assert [a, b] + [c] == [a, b, c];
    ConcatAppend([a, b, c], d);
    assert [a, b, c] + [d] == [a, b, c, d];
    ConcatAppend([a, b, c, d], e);
    assert [a, b, c, d] + [e] == [a, b, c, d, e];
    ConcatAppend([a, b, c, d, e], f);
    assert [a, b, c, d, e] + [f] == [a, b, c, d, e, f];
    ConcatAppend([a, b, c, d, e, f], g);
    assert [a, b, c, d, e, f] + [g] == HashedParts(r);
    assert Concat([a]) == a;
    assert Concat([a, b, c, d, e, f, g]) == a + b + c + d + e + f + g;
  }

  /** The digest of a record: SHA-256 of id, student, institution, course,
      grade, issue date and timestamp, joined in that order with no
      separator. */
  function RecomputedHash(sha256: string -> string, r: CertificateRecord): (h: string)
    ensures h == sha256(r.certificateId + r.studentName + r.institutionName + r.courseName
                        + r.grade + r.issueDate + DecimalString(r.timestamp))
  {
    HashedPartsJoin(r);
    sha256(CertificatePreimage(r))
  }

  /** None of the five business fields is falsy (empty). */
  predicate HasRequiredFields(r: CertificateRecord)
  {
    r.studentName != "" && r.institutionName != "" && r.courseName != "" &&
    r.grade != "" && r.issueDate != ""
  }

  /** `isValid()`: all business fields present and the stored hash equal to a
      fresh recomputation. */
  predicate RecordIsValid(sha256: string -> string, r: CertificateRecord)
  {
    HasRequiredFields(r) && r.certificateHash == RecomputedHash(sha256, r)
  }

  /** An empty business field makes a record invalid whatever its hash. */
  lemma MissingFieldInvalid(sha256: string -> string, r: CertificateRecord)
    requires !HasRequiredFields(r)
    ensures !RecordIsValid(sha256, r)
  {
  }

  /** A stored hash that differs from the recomputation makes a record
      invalid whatever its fields. */
  lemma HashMismatchInvalid(sha256: string -> string, r: CertificateRecord)
    requires r.certificateHash != RecomputedHash(sha256, r)
    ensures !RecordIsValid(sha256, r)
  {
  }

  /** `getFormattedCertificate()` on a record value. */
  function Format(sha256: string -> string, r: CertificateRecord): (f: FormattedCertificate)
    ensures f.record == r
    ensures f.isValid <==> HasRequiredFields(r) && r.certificateHash == RecomputedHash(sha256, r)
  {
    FormattedCertificate(r, RecordIsValid(sha256, r))
  }

  /** The record `fromData` yields: the constructor runs on the payload's
      fields (drawing a fresh id only when the stored one is empty), then the
      stored timestamp and hash are copied over the ones it computed. */
  function Rebuild(d: Payload, entropy: seq<Byte>): (r: CertificateRecord)
    requires d.CertificateData? && |entropy| == 8
    ensures RebuiltFrom(r, d)
  {
    CertificateRecord(
      if d.certificateId != "" then d.certificateId else GenerateCertificateId(entropy),
      d.studentName, d.institutionName, d.courseName, d.grade, d.issueDate,
      d.timestamp, d.certificateHash)
  }

  /** `r` is what `fromData(d)` can return, whatever random bytes it drew. */
  predicate RebuiltFrom(r: CertificateRecord, d: Payload)
  {
    d.CertificateData? &&
    r.studentName == d.studentName && r.institutionName == d.institutionName &&
    r.courseName == d.courseName && r.grade == d.grade && r.issueDate == d.issueDate &&
    r.timestamp == d.timestamp && r.certificateHash == d.certificateHash &&
    (if d.certificateId != "" then r.certificateId == d.certificateId
     else IsGeneratedId(r.certificateId))
  }

  /** The record whose fields are exactly those of a certificate payload. */
  function StoredRecord(d: Payload): CertificateRecord
    requires d.CertificateData?
  {
    CertificateRecord(d.certificateId, d.studentName, d.institutionName,
                      d.courseName, d.grade, d.issueDate, d.timestamp, d.certificateHash)
  }

  /** A payload with an id rebuilds to exactly its own fields, so whether the
      rebuilt record is valid depends on the payload alone. */
  lemma RebuiltFromStoredId(r: CertificateRecord, d: Payload)
    requires RebuiltFrom(r, d) && d.certificateId != ""
    ensures r == StoredRecord(d)
  {
  }

  /** `t` is `r` with exactly one hashed field (or the hash) changed in place,
      the stored hash left alone unless it is the field changed. */
  predicate RecordFieldEdited(r: CertificateRecord, t: CertificateRecord)
  {
    t != r &&
    (t == r.(certificateId := t.certificateId) ||
     t == r.(studentName := t.studentName) ||
     t == r.(institutionName := t.institutionName) ||
     t == r.(courseName := t.courseName) ||
     t == r.(grade := t.grade) ||
     t == r.(issueDate := t.issueDate) ||
     t == r.(timestamp := t.timestamp) ||
     t == r.(certificateHash := t.certificateHash))
  }

  /** Tamper detection, assuming the digest is injective: editing any single
      field of a valid record without recomputing its hash makes it invalid. */
  lemma {:induction false} FieldTamperDetected(sha256: string -> string, r: CertificateRecord, t: CertificateRecord)
    requires Injective(sha256)
    requires RecordIsValid(sha256, r) && RecordFieldEdited(r, t)
    ensures !RecordIsValid(sha256, t)
  {
    if RecordIsValid(sha256, t) {
      if t.certificateHash == r.certificateHash {
        var pr, pt := CertificatePreimage(r), CertificatePreimage(t);
        assert sha256(pr) == sha256(pt);
        assert pr == pt;
        var a, b := HashedParts(r), HashedParts(t);
        var k :=
          if t == r.(certificateId := t.certificateId) then 0
          else if t == r.(studentName := t.studentName) then 1
          else if t == r.(institutionName := t.institutionName) then 2
          else if t == r.(courseName := t.courseName) then 3
          else if t == r.(grade := t.grade) then 4
          else if t == r.(issueDate := t.issueDate) then 5
          else 6;
        ConcatCancel(a, b, k);
        if k == 6 {
          DecimalStringInjective(r.timestamp, t.timestamp);
        }
      }
    }
  }

  /** The limit of that detection: the fields are concatenated without a
      separator, so moving the last character of the student name to the
      front of the institution name leaves the digest input, and so the
      record's validity, unchanged. */
  lemma BoundaryShiftUndetected(sha256: string -> string, r: CertificateRecord)
    requires RecordIsValid(sha256, r) && |r.studentName| >= 2
    ensures var k := |r.studentName| - 1;
            var t := r.(studentName := r.studentName[..k],
                        institutionName := r.studentName[k..] + r.institutionName);
            t != r && RecordIsValid(sha256, t)
  {
    var k := |r.studentName| - 1;
    var t := r.(studentName := r.studentName[..k],
                institutionName := r.studentName[k..] + r.institutionName);
    assert r.studentName[..k] + r.studentName[k..] == r.studentName;
    ConcatShift(HashedParts(t), HashedParts(r), 1);
    assert |t.studentName| != |r.studentName|;
  }

  /** A certificate object (blockchain/certificate.js). Its fields are mutable,
      as in the source; `fromData` overwrites two of them after construction. */
  class Certificate {
    var certificateId: string
    var studentName: string
    var institutionName: string
    var courseName: string
    var grade: string
    var issueDate: string
    var timestamp: nat
    var certificateHash: string

    function Record(): CertificateRecord
      reads this
    {
      CertificateRecord(certificateId, studentName, institutionName, courseName,
                        grade, issueDate, timestamp, certificateHash)
    }

    /** `new Certificate(...)`: `certificateId` is kept when non-empty and
        replaced by a generated one otherwise; `now` is `Date.now()` and
        `entropy` the eight random bytes an id would be generated from. */
    constructor (sha256: string -> string, studentName: string, institutionName: string,
                 courseName: string, grade: string, issueDate: string,
                 certificateId: string, now: nat, entropy: seq<Byte>)
      requires |entropy| == 8
      ensures certificateId != "" ==> this.certificateId == certificateId
      ensures certificateId == "" ==> this.certificateId == GenerateCertificateId(entropy)
      ensures this.certificateId != ""
      ensures this.studentName == studentName && this.institutionName == institutionName
      ensures this.courseName == courseName && this.grade == grade && this.issueDate == issueDate
      ensures timestamp == now
      ensures certificateHash == RecomputedHash(sha256, Record())
      ensures (studentName != "" && institutionName != "" && courseName != "" &&
               grade != "" && issueDate != "") ==> IsValid(sha256)
    {
      this.certificateId := if certificateId != "" then certificateId else GenerateCertificateId(entropy);
      this.studentName := studentName;
      this.institutionName := institutionName;
      this.courseName := courseName;
      this.grade := grade;
      this.issueDate := issueDate;
      this.timestamp := now;
      new;
      this.certificateHash := CalculateCertificateHash(sha256);
    }

    /** `calculateCertificateHash()`: the digest of the current fields, in
        the order id, student, institution, course, grade, issue date,
        timestamp. */
    function CalculateCertificateHash(sha256: string -> string): (h: string)
      reads this
      ensures h == sha256(certificateId + studentName + institutionName + courseName
                          + grade + issueDate + DecimalString(timestamp))
    {
      RecomputedHash(sha256, Record())
    }

    /** `isValid()`. */
    predicate IsValid(sha256: string -> string)
      reads this
      ensures IsValid(sha256) <==>
        studentName != "" && institutionName != "" && courseName != "" &&
        grade != "" && issueDate != "" && certificateHash == CalculateCertificateHash(sha256)
    {
      RecordIsValid(sha256, Record())
    }

    /** `getCertificateData()`: the payload tagged as a certificate, every
        field copied as it is (timestamp and hash are not recomputed). */
    function GetCertificateData(): (d: Payload)
      reads this
      ensures d.CertificateData?
      ensures d.certificateId == certificateId && d.studentName == studentName
      ensures d.institutionName == institutionName && d.courseName == courseName
      ensures d.grade == grade && d.issueDate == issueDate
      ensures d.timestamp == timestamp && d.certificateHash == certificateHash
    {
      CertificateData(certificateId, studentName, institutionName, courseName,
                      grade, issueDate, timestamp, certificateHash)
    }

    /** `getFormattedCertificate()`: its `isValid` field is `isValid()`. */
    function GetFormattedCertificate(sha256: string -> string): (f: FormattedCertificate)
      reads this
      ensures f.isValid == IsValid(sha256)
      ensures f.record == Record()
    {
      Format(sha256, Record())
    }

    /** `Certificate.fromData(data)`: construct from the payload, then copy the
        stored timestamp and hash over the computed ones. */
    static method FromData(sha256: string -> string, data: Payload, now: nat, entropy: seq<Byte>)
      returns (cert: Certificate)
      requires data.CertificateData? && |entropy| == 8
      ensures fresh(cert)
      ensures cert.Record() == Rebuild(data, entropy)
    {
      cert := new Certificate(sha256, data.studentName, data.institutionName, data.courseName,
                              data.grade, data.issueDate, data.certificateId, now, entropy);
      cert.timestamp := data.timestamp;
      cert.certificateHash := data.certificateHash;
    }
  }

  /** Round trip: rebuilding a certificate from its own storable form gives
      back all of its fields, hence the same validity. */
  lemma FromDataRoundTrip(sha256: string -> string, c: Certificate, entropy: seq<Byte>)
    requires c.certificateId != "" && |entropy| == 8
    ensures Rebuild(c.GetCertificateData(), entropy) == c.Record()
    ensures RecordIsValid(sha256, Rebuild(c.GetCertificateData(), entropy)) == c.IsValid(sha256)
  {
  }
}
