/** Choosing one DNSCrypt certificate among the answers to a certificate query. */
module CertSelection {
  import opened Common

  type Bytes = seq<byte>

  /** The clock, the setting and the cryptography the loop uses. */
  datatype Context = Context(
    now: nat,
    ignoreTimestamp: bool,
    verify: (Bytes, Bytes) -> bool,
    sharedKey: (Construction, Bytes) -> Bytes,
    pqContext: Bytes -> Bytes)

  datatype CertInfo = CertInfo(
    serverPk: Bytes, sharedKey: Bytes, magicQuery: Bytes, construction: Construction,
    forwardSecurity: bool, pqPublicKey: Bytes, pqCertContext: Bytes)

  const NO_CERT := CertInfo(Zeros(32), Zeros(32), Zeros(8), Undefined, false, [], [])

  const CERT_MAGIC: Bytes := [0x44, 0x4e, 0x53, 0x43]

  const PQ_PROFILE: Bytes := [0x50, 0x51, 0x44, 1, 0, 3, 1, 1, 0x04, 0xc0, 0x04, 0x60]

  const WEEK := 86400 * 7

  // ------------------------------------------------------------- what a certificate says

  function ConstructionOf(cert: Bytes): Construction
    requires |cert| >= 124
  {
    var version := Uint16(cert[4..6]);
    if version == 1 then XSalsa20Poly1305
    else if version == 2 then XChacha20Poly1305
    else if version == 3 then XWingPQ
    else Undefined
  }

  /** Long enough for its fields, with the magic and a known version. */
  predicate WellFormed(cert: Bytes) {
    && |cert| >= 124 && cert[..4] == CERT_MAGIC && ConstructionOf(cert) != Undefined
    && (ConstructionOf(cert) == XWingPQ ==> |cert| >= 1320)
  }

  /** Where the serial number is; the validity period follows it. */
  function SerialOffset(cert: Bytes): (r: nat)
    requires WellFormed(cert)
    ensures r + 12 <= |cert|
  {
    if ConstructionOf(cert) == XWingPQ then 1296 else 112
  }

  function Serial(cert: Bytes): nat
    requires WellFormed(cert)
  {
    Uint32(cert[SerialOffset(cert)..SerialOffset(cert) + 4])
  }

  function Begins(cert: Bytes): nat
    requires WellFormed(cert)
  {
    Uint32(cert[SerialOffset(cert) + 4..SerialOffset(cert) + 8])
  }

  function Ends(cert: Bytes): nat
    requires WellFormed(cert)
  {
    Uint32(cert[SerialOffset(cert) + 8..SerialOffset(cert) + 12])
  }

  /** Signed by the provider, with the expected profile, and valid now. */
  predicate Usable(context: Context, cert: Bytes) {
    && WellFormed(cert) && context.verify(cert[72..], cert[8..72])
    && (ConstructionOf(cert) == XWingPQ ==> cert[1308..1320] == PQ_PROFILE)
    && Begins(cert) < Ends(cert) && (context.ignoreTimestamp || Begins(cert) <= context.now <= Ends(cert))
  }

  /** What is kept of a certificate, every field from that one certificate. */
  function InfoOf(context: Context, cert: Bytes): CertInfo
    requires WellFormed(cert)
  {
    var construction := ConstructionOf(cert);
    var forwardSecurity := Ends(cert) - Begins(cert) <= WEEK;
    if construction == XWingPQ then
      CertInfo(Zeros(32), Zeros(32), cert[1288..1296], XWingPQ, forwardSecurity, cert[72..1288],
               context.pqContext(cert))
    else
      CertInfo(cert[72..104], context.sharedKey(construction, cert[72..104]), cert[104..112], construction,
               forwardSecurity, [], [])
  }

  // ------------------------------------------------------------- preference

  /** By serial number, and then by construction. */
  predicate NoBetter(a: Bytes, b: Bytes)
    requires WellFormed(a) && WellFormed(b)
  {
    Serial(a) < Serial(b) || (Serial(a) == Serial(b) && ConstructionOf(a).Order() <= ConstructionOf(b).Order())
  }

  lemma NoBetterIsTotal(a: Bytes, b: Bytes, c: Bytes)
    requires WellFormed(a) && WellFormed(b) && WellFormed(c)
    ensures NoBetter(a, b) || NoBetter(b, a)
    ensures NoBetter(a, b) && NoBetter(b, c) ==> NoBetter(a, c)
    ensures NoBetter(a, b) && NoBetter(b, a) ==> Serial(a) == Serial(b) && ConstructionOf(a) == ConstructionOf(b)
  {
  }

  /** An answer is a certificate, or a record of another type. */
  type Answers = seq<Option<Bytes>>

  predicate UsableAt(context: Context, answers: Answers, i: nat)
    requires i < |answers|
  {
    answers[i].Some? && Usable(context, answers[i].value)
  }

  /** The usable certificate no usable one is better than, and the last such. */
  ghost predicate IsChosen(context: Context, answers: Answers, i: nat) {
    && i < |answers| && UsableAt(context, answers, i)
    && (forall j :: 0 <= j < |answers| && UsableAt(context, answers, j) ==>
          NoBetter(answers[j].value, answers[i].value))
    && (forall j :: i < j < |answers| && UsableAt(context, answers, j) ==>
          !NoBetter(answers[i].value, answers[j].value))
  }

  ghost predicate NoneUsable(context: Context, answers: Answers) {
    forall i :: 0 <= i < |answers| ==> !UsableAt(context, answers, i)
  }

  // ------------------------------------------------------------- the loop

  /** The checks that skip a certificate, in their order. */
  method Check(context: Context, cert: Bytes) returns (usable: bool)
    ensures usable <==> Usable(context, cert)
  {
    if |cert| < 124 {
      return false;
    }
    if cert[..4] != CERT_MAGIC {
      return false;
    }
    var construction := ConstructionOf(cert);
    if construction == Undefined {
      return false;
    }
    var isPQ := construction == XWingPQ;
    if isPQ && |cert| < 1320 {
      return false;
    }
    if !context.verify(cert[72..], cert[8..72]) {
      return false;
    }
    var serialOff := 112;
    if isPQ {
      var ext := cert[1308..1320];
      if ext != PQ_PROFILE {
        return false;
      }
      VersionIsInProfile(cert);
      if cert[4..6] != ext[4..6] {
        return false;
      }
      serialOff := 1296;
    }
    var tsBegin := Uint32(cert[serialOff + 4..serialOff + 8]);
    var tsEnd := Uint32(cert[serialOff + 8..serialOff + 12]);
    if tsBegin >= tsEnd {
      return false;
    }
    if !context.ignoreTimestamp && (context.now > tsEnd || context.now < tsBegin) {
      return false;
    }
    return true;
  }

  /** A version 3 certificate with the expected profile repeats its version there: the second check never fails. */
  lemma VersionIsInProfile(cert: Bytes)
    requires |cert| >= 1320 && Uint16(cert[4..6]) == 3 && cert[1308..1320] == PQ_PROFILE
    ensures cert[4..6] == cert[1308..1320][4..6]
  {
  }

  /** What has been chosen among the first `n` answers. */
  ghost predicate Chosen(context: Context, answers: Answers, n: nat, info: CertInfo, highest: nat, at: Option<nat>)
    requires n <= |answers|
  {
    match at
    case None => info == NO_CERT && highest == 0 && NoneUsable(context, answers[..n])
    case Some(i) =>
      && IsChosen(context, answers[..n], i)
      && info == InfoOf(context, answers[i].value) && highest == Serial(answers[i].value)
  }

  /** An answer that is not usable changes nothing. */
  lemma SkipUnusable(context: Context, answers: Answers, n: nat, info: CertInfo, highest: nat, at: Option<nat>)
    requires n < |answers| && Chosen(context, answers, n, info, highest, at) && !UsableAt(context, answers, n)
    ensures Chosen(context, answers, n + 1, info, highest, at)
  {
    assert forall j :: 0 <= j < n ==> UsableAt(context, answers[..n + 1], j) == UsableAt(context, answers[..n], j);
    if at.None? {
      var longer := answers[..n + 1];
      forall j | 0 <= j < |longer|
        ensures !UsableAt(context, longer, j)
      {
        assert j < n ==> !UsableAt(context, answers[..n], j);
      }
    }
  }

  /** Nor does one that the certificate chosen so far is better than. */
  lemma SkipWorse(context: Context, answers: Answers, n: nat, info: CertInfo, highest: nat, i: nat)
    requires n < |answers| && Chosen(context, answers, n, info, highest, Some(i)) && UsableAt(context, answers, n)
    requires !NoBetter(answers[i].value, answers[n].value)
    ensures Chosen(context, answers, n + 1, info, highest, Some(i))
  {
  }

  /** Any other usable one takes its place. */
  lemma TakeBetter(context: Context, answers: Answers, n: nat, info: CertInfo, highest: nat, at: Option<nat>)
    requires n < |answers| && Chosen(context, answers, n, info, highest, at) && UsableAt(context, answers, n)
    requires at.Some? ==> NoBetter(answers[at.value].value, answers[n].value)
    ensures Chosen(context, answers, n + 1, InfoOf(context, answers[n].value), Serial(answers[n].value), Some(n))
  {
    forall j | 0 <= j < n && UsableAt(context, answers[..n + 1], j)
      ensures NoBetter(answers[j].value, answers[n].value)
    {
      assert UsableAt(context, answers[..n], j);
      NoBetterIsTotal(answers[j].value, answers[at.value].value, answers[n].value);
    }
  }

  /** The fields of the chosen certificate, written one after another. */
  method Adopt(context: Context, cert: Bytes, before: CertInfo) returns (info: CertInfo)
    requires WellFormed(cert)
    ensures info == InfoOf(context, cert)
  {
    info := before;
    var construction := ConstructionOf(cert);
    info := info.(forwardSecurity := Ends(cert) - Begins(cert) <= WEEK);
    if construction == XWingPQ {
      info := info.(pqPublicKey := cert[72..1288], pqCertContext := context.pqContext(cert));
      info := info.(serverPk := Zeros(32), sharedKey := Zeros(32), magicQuery := cert[1288..1296]);
    } else {
      var serverPk := cert[72..104];
      info := info.(sharedKey := context.sharedKey(construction, serverPk), pqPublicKey := [], pqCertContext := []);
      info := info.(serverPk := serverPk, magicQuery := cert[104..112]);
    }
    info := info.(construction := construction);
  }

  method SelectCert(context: Context, answers: Answers) returns (r: Option<CertInfo>)
    ensures r.None? <==> NoneUsable(context, answers)
    ensures r.Some? ==> exists i: nat :: IsChosen(context, answers, i) && r == Some(InfoOf(context, answers[i].value))
  {
    var certInfo, highestSerial := NO_CERT, 0;
    ghost var at: Option<nat> := None;
    for n := 0 to |answers|
      invariant Chosen(context, answers, n, certInfo, highestSerial, at)
    {
      var usable := false;
      if answers[n].Some? {
        usable := Check(context, answers[n].value);
      }
      if !usable {
        SkipUnusable(context, answers, n, certInfo, highestSerial, at);
        continue;
      }
      var cert := answers[n].value;
      var serial := Serial(cert);
      if
        || serial < highestSerial
        || (serial == highestSerial && ConstructionOf(cert).Order() < certInfo.construction.Order())
      {
        SkipWorse(context, answers, n, certInfo, highestSerial, at.value);
        continue;
      }
      TakeBetter(context, answers, n, certInfo, highestSerial, at);
      certInfo := Adopt(context, cert, certInfo);
      highestSerial := serial;
      at := Some(n);
    }
    assert answers[..|answers|] == answers;
    if certInfo.construction == Undefined {
      return None;
    }
    return Some(certInfo);
  }

  // ------------------------------------------------------------- order of the answers

  /** The serial and construction chosen do not depend on the order of the answers. */
  lemma ChoiceIgnoresOrder(context: Context, a: Answers, b: Answers, i: nat, j: nat)
    requires multiset(a) == multiset(b) && IsChosen(context, a, i) && IsChosen(context, b, j)
    ensures Serial(a[i].value) == Serial(b[j].value)
    ensures ConstructionOf(a[i].value) == ConstructionOf(b[j].value)
  {
    var i' := SameElsewhere(a, b, i);
    var j' := SameElsewhere(b, a, j);
    assert UsableAt(context, b, i') && UsableAt(context, a, j');
    NoBetterIsTotal(a[i].value, b[j].value, a[i].value);
  }

  lemma SameElsewhere(a: Answers, b: Answers, i: nat) returns (k: nat)
    requires multiset(a) == multiset(b) && i < |a|
    ensures k < |b| && b[k] == a[i]
  {
    assert a[i] in multiset(b);
    k :| 0 <= k < |b| && b[k] == a[i];
  }

  /** Nor does whether one is chosen. */
  lemma FailureIgnoresOrder(context: Context, a: Answers, b: Answers)
    requires multiset(a) == multiset(b)
    ensures NoneUsable(context, a) ==> NoneUsable(context, b)
  {
    if NoneUsable(context, a) {
      forall j | 0 <= j < |b|
        ensures !UsableAt(context, b, j)
      {
        var k := SameElsewhere(b, a, j);
        assert !UsableAt(context, a, k);
      }
    }
  }

  /** Of certificates alike in serial and construction the last is taken, so there the order does show. */
  lemma TiesGoToTheLast(context: Context, a: Bytes, b: Bytes)
    requires Usable(context, a) && Usable(context, b)
    requires Serial(a) == Serial(b) && ConstructionOf(a) == ConstructionOf(b)
    ensures IsChosen(context, [Some(a), Some(b)], 1) && IsChosen(context, [Some(b), Some(a)], 1)
  {
  }

  // ------------------------------------------------------------- the layout of a certificate

  /** The octets before the signed part: magic, version, minor version and signature. */
  function Head(version: nat, minor: Bytes, signature: Bytes): (h: Bytes)
    requires version < 0x1_0000 && |minor| == 2 && |signature| == 64
    ensures |h| == 72
  {
    [0x44, 0x4e, 0x53, 0x43] + PutUint16(version) + minor + signature
  }

  /** Serial number and validity period. */
  function Dates(serial: nat, begins: nat, ends: nat): (d: Bytes)
    requires serial < 0x1_0000_0000 && begins < 0x1_0000_0000 && ends < 0x1_0000_0000
    ensures |d| == 12
  {
    PutUint32(serial) + PutUint32(begins) + PutUint32(ends)
  }

  lemma HeadComesApart(version: nat, minor: Bytes, signature: Bytes, rest: Bytes)
    requires version < 0x1_0000 && |minor| == 2 && |signature| == 64
    ensures
      var cert := Head(version, minor, signature) + rest;
      cert[..4] == CERT_MAGIC && Uint16(cert[4..6]) == version && cert[8..72] == signature && cert[72..] == rest
  {
    var cert := Head(version, minor, signature) + rest;
    assert cert[4..6] == PutUint16(version);
  }

  lemma Uint32ReadsBack(n: nat)
    requires n < 0x1_0000_0000
    ensures Uint32(PutUint32(n)) == n
  {
    assert PutUint32(n)[..2] == PutUint16(n / 0x1_0000) && PutUint32(n)[2..] == PutUint16(n % 0x1_0000);
  }

  lemma DatesComeApart(before: Bytes, serial: nat, begins: nat, ends: nat, rest: Bytes)
    requires serial < 0x1_0000_0000 && begins < 0x1_0000_0000 && ends < 0x1_0000_0000
    ensures
      var cert, n := before + Dates(serial, begins, ends) + rest, |before|;
      && Uint32(cert[n..n + 4]) == serial && Uint32(cert[n + 4..n + 8]) == begins
      && Uint32(cert[n + 8..n + 12]) == ends
  {
    var cert, n := before + Dates(serial, begins, ends) + rest, |before|;
    assert cert[n..n + 4] == PutUint32(serial);
    assert cert[n + 4..n + 8] == PutUint32(begins);
    assert cert[n + 8..n + 12] == PutUint32(ends);
    Uint32ReadsBack(serial);
    Uint32ReadsBack(begins);
    Uint32ReadsBack(ends);
  }

  /** A certificate of version 1 or 2: the server's key, the magic for queries, the dates, and possibly more. */
  function ClassicCert(version: nat, minor: Bytes, signature: Bytes, key: Bytes, magic: Bytes, dates: Bytes,
                       more: Bytes): Bytes
    requires version < 0x1_0000 && |minor| == 2 && |signature| == 64
  {
    Head(version, minor, signature) + (key + magic + dates + more)
  }

  lemma ClassicFields(version: nat, minor: Bytes, signature: Bytes, key: Bytes, magic: Bytes, serial: nat, begins: nat,
                      ends: nat, more: Bytes)
    requires version == 1 || version == 2
    requires |minor| == 2 && |signature| == 64 && |key| == 32 && |magic| == 8
    requires serial < 0x1_0000_0000 && begins < 0x1_0000_0000 && ends < 0x1_0000_0000
    ensures
      var cert := ClassicCert(version, minor, signature, key, magic, Dates(serial, begins, ends), more);
      && WellFormed(cert) && ConstructionOf(cert) == (if version == 1 then XSalsa20Poly1305 else XChacha20Poly1305)
      && Serial(cert) == serial && Begins(cert) == begins && Ends(cert) == ends
      && cert[8..72] == signature && cert[72..104] == key && cert[104..112] == magic
  {
    var dates := Dates(serial, begins, ends);
    var cert := ClassicCert(version, minor, signature, key, magic, dates, more);
    HeadComesApart(version, minor, signature, key + magic + dates + more);
    assert cert == (Head(version, minor, signature) + key + magic) + dates + more;
    DatesComeApart(Head(version, minor, signature) + key + magic, serial, begins, ends, more);
  }

  /** What a certificate of version 1 or 2 is read as, whatever its fields are. */
  lemma ClassicCertReadsBack(context: Context, version: nat, minor: Bytes, signature: Bytes, key: Bytes, magic: Bytes,
                             serial: nat, begins: nat, ends: nat, more: Bytes)
    requires version == 1 || version == 2
    requires |minor| == 2 && |signature| == 64 && |key| == 32 && |magic| == 8
    requires serial < 0x1_0000_0000 && begins < 0x1_0000_0000 && ends < 0x1_0000_0000
    ensures
      var cert := ClassicCert(version, minor, signature, key, magic, Dates(serial, begins, ends), more);
      var construction := if version == 1 then XSalsa20Poly1305 else XChacha20Poly1305;
      && WellFormed(cert) && Serial(cert) == serial && ConstructionOf(cert) == construction
      && (Usable(context, cert) <==>
            && context.verify(key + magic + Dates(serial, begins, ends) + more, signature)
            && begins < ends && (context.ignoreTimestamp || begins <= context.now <= ends))
      && InfoOf(context, cert) ==
         CertInfo(key, context.sharedKey(construction, key), magic, construction, ends - begins <= 604800, [], [])
  {
    ClassicFields(version, minor, signature, key, magic, serial, begins, ends, more);
    HeadComesApart(version, minor, signature, key + magic + Dates(serial, begins, ends) + more);
  }

  /** A certificate of version 3: the longer key, the magic for queries, the dates, the profile, and possibly more. */
  function PqCert(minor: Bytes, signature: Bytes, key: Bytes, magic: Bytes, dates: Bytes, profile: Bytes, more: Bytes):
    Bytes
    requires |minor| == 2 && |signature| == 64
  {
    Head(3, minor, signature) + (key + magic + dates + profile + more)
  }

  lemma PqFields(minor: Bytes, signature: Bytes, key: Bytes, magic: Bytes, serial: nat, begins: nat, ends: nat,
                 profile: Bytes, more: Bytes)
    requires |minor| == 2 && |signature| == 64 && |key| == 1216 && |magic| == 8 && |profile| == 12
    requires serial < 0x1_0000_0000 && begins < 0x1_0000_0000 && ends < 0x1_0000_0000
    ensures
      var cert := PqCert(minor, signature, key, magic, Dates(serial, begins, ends), profile, more);
      && WellFormed(cert) && ConstructionOf(cert) == XWingPQ
      && Serial(cert) == serial && Begins(cert) == begins && Ends(cert) == ends
      && cert[8..72] == signature && cert[72..1288] == key && cert[1288..1296] == magic && cert[1308..1320] == profile
  {
    var dates := Dates(serial, begins, ends);
    var cert := PqCert(minor, signature, key, magic, dates, profile, more);
    HeadComesApart(3, minor, signature, key + magic + dates + profile + more);
    assert cert == (Head(3, minor, signature) + key + magic) + dates + (profile + more);
    DatesComeApart(Head(3, minor, signature) + key + magic, serial, begins, ends, profile + more);
  }

  /** What a certificate of version 3 is read as. */
  lemma PqCertReadsBack(context: Context, minor: Bytes, signature: Bytes, key: Bytes, magic: Bytes, serial: nat,
                        begins: nat, ends: nat, profile: Bytes, more: Bytes)
    requires |minor| == 2 && |signature| == 64 && |key| == 1216 && |magic| == 8 && |profile| == 12
    requires serial < 0x1_0000_0000 && begins < 0x1_0000_0000 && ends < 0x1_0000_0000
    ensures
      var cert := PqCert(minor, signature, key, magic, Dates(serial, begins, ends), profile, more);
      && WellFormed(cert) && Serial(cert) == serial && ConstructionOf(cert) == XWingPQ
      && (Usable(context, cert) <==>
            && context.verify(key + magic + Dates(serial, begins, ends) + profile + more, signature)
            && profile == [0x50, 0x51, 0x44, 1, 0, 3, 1, 1, 4, 192, 4, 96]
            && begins < ends && (context.ignoreTimestamp || begins <= context.now <= ends))
      && InfoOf(context, cert) ==
         CertInfo(Zeros(32), Zeros(32), magic, XWingPQ, ends - begins <= 604800, key, context.pqContext(cert))
  {
    PqFields(minor, signature, key, magic, serial, begins, ends, profile, more);
    HeadComesApart(3, minor, signature, key + magic + Dates(serial, begins, ends) + profile + more);
  }

  /** What is too short, does not start with DNSC, or has another version is never used. */
  lemma MalformedIsRefused(context: Context, cert: Bytes)
    requires
      || |cert| < 124 || cert[..4] != [0x44, 0x4e, 0x53, 0x43]
      || (cert[4..6] != [0, 1] && cert[4..6] != [0, 2] && cert[4..6] != [0, 3])
      || (cert[4..6] == [0, 3] && |cert| < 1320)
    ensures !Usable(context, cert)
  {
    if |cert| >= 124 {
      assert cert[4..6] == [cert[4], cert[5]];
    }
  }

  /** The higher serial wins, and of equal ones version 3 over 2 over 1, in whatever order they come. */
  lemma HigherWins(context: Context, a: Bytes, b: Bytes)
    requires Usable(context, a) && Usable(context, b)
    requires Serial(a) < Serial(b) || (Serial(a) == Serial(b) && Uint16(a[4..6]) < Uint16(b[4..6]))
    ensures IsChosen(context, [Some(a), Some(b)], 1) && IsChosen(context, [Some(b), Some(a)], 0)
  {
  }
}
