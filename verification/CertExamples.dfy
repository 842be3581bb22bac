/** Concrete devices on which what the certificate store's lemmas warn of happens (sc/cert_store.cpp); so their
    hypotheses are met. */
module CertExamples {
  import opened Octets
  import opened CertFiles
  import opened CertSteps
  import opened CertRequests
  import Pem

  const MARKERS := Pem.PemMarkers("CERTIFICATE")
  const BLOCK := MARKERS.BeginLine() + MARKERS.end

  /** Files 1 to 3: operational certificate, issuer, request. */
  const LAYOUT := Layout(map[1 := "o", 2 := "i", 3 := "c"], map[], 1, [2], "k", "p", 3)

  /** The certificate is for key 2, and every chain verifies. */
  const CRYPTO := Crypto(_ => true, _ => 2, _ => false, (_, _, _, _) => true,
                         pem => if pem == "2" then Some(2) else if pem == "3" then Some(3) else None, _ => None)

  /** A signing request for the pending key 2 is out. */
  const START := Device(Store(map["i" := BLOCK, "p" := "2"], map[], false), Idle)

  const TO_PROMOTION := [Write(1, BLOCK), Activate([1]), TempWrite(true), Rename(true)]

  const PROMOTING := Device(Store(map["i" := BLOCK, "p" := "2", "o" := BLOCK], map[], true), Promoting)

  lemma BlockIsBlock()
    ensures Pem.IsBlock(BLOCK, MARKERS)
  {
    var from, at := |MARKERS.begin| + |MARKERS.name|, |MARKERS.BeginLine()|;
    assert BLOCK[at..at + |MARKERS.end|] == MARKERS.end;
    forall i: nat | from <= i < at ensures !Pem.Occurs(BLOCK, MARKERS.end, i) {
      if i + |MARKERS.end| <= |BLOCK| {
        assert BLOCK[i..i + |MARKERS.end|][5] == BLOCK[i + 5] == '-';
      }
    }
    Pem.FoundAt(BLOCK, MARKERS.end, from, at);
  }

  lemma BlockParses(c: Crypto)
    requires c.parses(BLOCK)
    ensures ParseCertificates(c, BLOCK) == Some([BLOCK])
  {
    hide Pem.IsBlock, Pem.PlainLabel, Pem.SplitPem;
    BlockIsBlock();
    Pem.DashFreeLabelIsPlain("CERTIFICATE");
    Pem.LoneBlockSplits(BLOCK, "", MARKERS);
    assert BLOCK + "" == BLOCK;
  }

  lemma LayoutIsNodeLayout()
    ensures NodeLayout(LAYOUT)
  {
    assert forall p :: |Tmp(p)| == |p| + 4;
    assert forall p | p in LAYOUT.Managed() :: |p| == 1;
  }

  lemma StartIsSafe()
    ensures NodeLayout(LAYOUT) && Safe(LAYOUT, CRYPTO, START) && InstalledIsCurrent(LAYOUT, CRYPTO, START.store.disk)
  {
    LayoutIsNodeLayout();
  }

  const STAGED := Store(map["i" := BLOCK, "p" := "2"], map[1 := BLOCK], false)

  /** The staged certificate is accepted, for the pending key. */
  lemma Accepted()
    requires LAYOUT.WellFormed()
    ensures Activatable(LAYOUT, CRYPTO, STAGED) && PromotesAfterValidate(LAYOUT, CRYPTO, STAGED)
  {
    hide ParseCertificates, MARKERS, BLOCK, Layout.WellFormed;
    BlockParses(CRYPTO);
    assert LAYOUT.issuers[..0] == [];
    assert IssuersIn(LAYOUT, CRYPTO, STAGED, []) == Some([]);
    assert Effective(LAYOUT, STAGED, 2) == BLOCK && Effective(LAYOUT, STAGED, 1) == BLOCK;
    assert IssuersIn(LAYOUT, CRYPTO, STAGED, LAYOUT.issuers) == Some([] + [BLOCK]);
    assert KeyAt(CRYPTO, STAGED.disk, "p") == Some(2) && KeyAt(CRYPTO, STAGED.disk, "k") == None;
    Chains(BLOCK, TlsServer);
    Chains(BLOCK, TlsClient);
  }

  lemma Chains(certificate: string, purpose: Purpose)
    ensures ChainsToIssuers(CRYPTO, certificate, [certificate][1..], [] + [certificate], purpose)
  {
    assert CRYPTO.verifies(certificate, [certificate][1..], [([] + [certificate])[0]], purpose);
  }

  const PREPARING := Device(STAGED.(promotes := true), Preparing([1], 0))

  const REPLACING := Device(Store(map["i" := BLOCK, "p" := "2", "o.tmp" := BLOCK], map[1 := BLOCK], true),
      Replacing([1], 0))

  lemma StageAndActivate()
    requires LAYOUT.WellFormed()
    ensures Next(LAYOUT, CRYPTO, START, Write(1, BLOCK)) == Device(STAGED, Idle)
    ensures Next(LAYOUT, CRYPTO, Device(STAGED, Idle), Activate([1])) == PREPARING
  {
    hide Activatable, PromotesAfterValidate, BLOCK, Layout.WellFormed;
    Accepted();
    assert 1 in STAGED.staged;
    assert Enumerates([1], STAGED.staged.Keys);
  }

  lemma WriteAndRename()
    requires LAYOUT.WellFormed()
    ensures Next(LAYOUT, CRYPTO, PREPARING, TempWrite(true)) == REPLACING
    ensures Next(LAYOUT, CRYPTO, REPLACING, Rename(true)) == PROMOTING
  {
    hide Activatable, PromotesAfterValidate, BLOCK, Layout.WellFormed, Enumerates;
    assert Tmp("o") == "o.tmp" && LAYOUT.OwnPath(1) == "o";
    assert Replaced(REPLACING.store.disk, "o") == PROMOTING.store.disk;
  }

  lemma ReachesPromotion()
    ensures NodeLayout(LAYOUT) && Run(LAYOUT, CRYPTO, START, TO_PROMOTION) == PROMOTING
  {
    hide Next, Run, BLOCK, START, PREPARING, REPLACING, PROMOTING, STAGED;
    LayoutIsNodeLayout();
    StageAndActivate();
    WriteAndRename();
    FourSteps(LAYOUT, CRYPTO, START, TO_PROMOTION);
  }

  lemma FourSteps(l: Layout, c: Crypto, d: Device, e: seq<Event>)
    requires l.WellFormed() && |e| == 4
    ensures Run(l, c, d, e) == Next(l, c, Next(l, c, Next(l, c, Next(l, c, d, e[0]), e[1]), e[2]), e[3])
  {
    hide Next;
    assert e[..3][..2] == e[..2] && e[..2][..1] == e[..1] && e[..1][..0] == [];
    assert Run(l, c, d, []) == d;
    assert Run(l, c, d, e[..1]) == Next(l, c, d, e[0]);
    assert Run(l, c, d, e[..2]) == Next(l, c, Run(l, c, d, e[..1]), e[1]);
    assert Run(l, c, d, e[..3]) == Next(l, c, Run(l, c, d, e[..2]), e[2]);
  }

  /** From a device in order, the promotion fails and a new key pair is asked for: nothing refuses it, and the
      device no longer holds the key of its certificate. */
  lemma KeyLost()
    ensures NodeLayout(LAYOUT) && Safe(LAYOUT, CRYPTO, START)
    ensures var s := Run(LAYOUT, CRYPTO, START, TO_PROMOTION + [Promote(false)]).store;
            MayGenerateCsr(LAYOUT, CRYPTO, s) &&
                !InstalledIsHeld(LAYOUT, CRYPTO, KeyGenerated(LAYOUT, CRYPTO, s, "3", "r").store.disk)
  {
    hide Run, KeyGenerated, InstalledIsHeld, Safe, MayGenerateCsr, BLOCK;
    StartIsSafe();
    ReachesPromotion();
    RunExtends(LAYOUT, CRYPTO, START, TO_PROMOTION, Promote(false));
    PromotionIsDue();
    NewKeyAfterFailedPromotion(LAYOUT, CRYPTO, PROMOTING, "3", "r");
  }

  lemma PromotionIsDue()
    ensures NodeLayout(LAYOUT) && Orderly(LAYOUT, PROMOTING) && OnCourse(LAYOUT, CRYPTO, PROMOTING)
  {
    hide ParseCertificates, BLOCK;
    LayoutIsNodeLayout();
    BlockParses(CRYPTO);
  }

  // ---------------------------------------------------------------------------
  // The request's key, and a missing file
  // ---------------------------------------------------------------------------

  /** The certificate is for key 1, request "q" for key 2. */
  const RENEWING := Crypto(_ => true, _ => 1, _ => false, (_, _, _, _) => true,
                           pem => if pem == "1" then Some(1) else if pem == "2" then Some(2)
                                  else if pem == "3" then Some(3) else None,
                           pem => if pem == "q" then Some(2) else if pem == "r" then Some(3) else None)

  /** A request for the pending key is out, to replace a certificate in use. */
  const WITH_REQUEST := Store(map["o" := BLOCK, "k" := "1", "p" := "2", "c" := "q"], map[], false)

  lemma RenewingIsCurrent()
    requires NodeLayout(LAYOUT)
    ensures MayGenerateCsr(LAYOUT, RENEWING, WITH_REQUEST) && InstalledIsCurrent(LAYOUT, RENEWING, WITH_REQUEST.disk)
    ensures RequestIsHeld(LAYOUT, RENEWING, WITH_REQUEST.disk)
  {
    hide ParseCertificates, BLOCK, Layout.WellFormed;
    BlockParses(RENEWING);
  }

  /** A second GENERATE_CSR_FILE stopped between its two renames: the request left is for a key that is gone. */
  lemma RequestLost()
    ensures NodeLayout(LAYOUT) && RequestIsHeld(LAYOUT, RENEWING, WITH_REQUEST.disk)
    ensures MayGenerateCsr(LAYOUT, RENEWING, WITH_REQUEST) && InstalledIsCurrent(LAYOUT, RENEWING, WITH_REQUEST.disk)
    ensures !RequestIsHeld(LAYOUT, RENEWING, KeyGenerated(LAYOUT, RENEWING, WITH_REQUEST, "3", "r").store.disk)
  {
    hide KeyGenerated, MayGenerateCsr, InstalledIsCurrent, RequestIsHeld, Layout.WellFormed;
    LayoutIsNodeLayout();
    RenewingIsCurrent();
    HalfGeneratedRequestExactly(LAYOUT, RENEWING, WITH_REQUEST, "3", "r", "q");
  }

  /** A refused write to the missing request file makes it read as empty. */
  lemma MissingFileReadsEmpty()
    ensures LAYOUT.WellFormed() && Read(LAYOUT, START.store, 3) == None && Stage(LAYOUT, START.store, 3).Some?
    ensures Read(LAYOUT, Stage(LAYOUT, START.store, 3).value, 3) == Some("")
  {
    LayoutIsNodeLayout();
  }
}
