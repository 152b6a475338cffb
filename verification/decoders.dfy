/** The four decoders of `FindDaysToExpire.py`. Each reads one certificate
    container and answers a map from alias to days remaining. The I/O and
    the certificate libraries are abstracted into `Content`: what the
    decoder finds when it opens the configured source. */
module Decoders {
  import opened Results
  import Expiry

  /** A certificate as `load_certificate` sees it: decodable, with its
      `notAfter` text, or rejected. */
  datatype Cert = Cert(notAfter: string) | Undecodable

  /** A private-key entry of a Java KeyStore: its alias and its certificate
      chain, leaf first. */
  datatype KeyEntry = KeyEntry(alias: string, chain: seq<Cert>)

  /** What opening a source yields. `Unreadable` covers every failure of
      the fetch itself: unreachable host, missing file, wrong passphrase,
      a container not in the decoder's format. */
  datatype Content =
    | Unreadable
    | Single(cert: Cert)
    | Store(privateKeys: seq<KeyEntry>)

  /** Why a decoder raised. */
  datatype DecodeError =
    | LoadFailed
    | CertUndecodable
    | EmptyChain(alias: string)
    | BadNotAfter(notAfter: string)

  type Days = map<string, int>

  /** Days left for one certificate: `load_certificate`, then `strptime`,
      then the day count. */
  function CertDays(cert: Cert, now: int): (r: Result<int, DecodeError>)
    ensures cert.Undecodable? ==> r == Failure(CertUndecodable)
    ensures cert.Cert? ==> (r.Success? <==> Expiry.DaysToExpire(cert.notAfter, now).Some?)
    ensures r.Success? ==> Expiry.DaysToExpire(cert.notAfter, now) == Some(r.value)
    ensures r.Failure? && cert.Cert? ==> r.error == BadNotAfter(cert.notAfter)
  {
    match cert
    case Undecodable => Failure(CertUndecodable)
    case Cert(notAfter) =>
      match Expiry.DaysToExpire(notAfter, now)
      case Some(d) => Success(d)
      case None => Failure(BadNotAfter(notAfter))
  }

  /** The shape shared by the remote, PEM and PKCS#12 decoders: one
      certificate, reported under the configured `path`. */
  function LeafDays(path: string, content: Content, now: int): (r: Result<Days, DecodeError>)
    ensures r.Success? <==> content.Single? && CertDays(content.cert, now).Success?
    ensures r.Success? ==> r.value.Keys == {path}
                           && r.value[path] == CertDays(content.cert, now).value
    ensures r.Failure? && content.Single? ==> r.error == CertDays(content.cert, now).error
    ensures !content.Single? ==> r == Failure(LoadFailed)
  {
    match content
    case Single(cert) =>
      var d :- CertDays(cert, now);
      Success(map[path := d])
    case _ => Failure(LoadFailed)
  }

  /** `get_remote_expiry_days`: the leaf certificate the server presents at
      `(path, port)`. */
  function RemoteExpiryDays(path: string, content: Content, now: int): (r: Result<Days, DecodeError>)
    ensures r.Success? <==> content.Single? && content.cert.Cert?
                            && Expiry.DaysToExpire(content.cert.notAfter, now).Some?
    ensures r.Success? ==> r.value.Keys == {path}
    ensures r.Success? ==> exists na :: content == Single(Cert(na))
                                        && Expiry.DaysToExpire(na, now) == Some(r.value[path])
  {
    LeafDays(path, content, now)
  }

  /** `get_pem_days_to_expire`: the certificate in the PEM file at `path`. */
  function PemDaysToExpire(path: string, content: Content, now: int): (r: Result<Days, DecodeError>)
    ensures r.Success? <==> content.Single? && content.cert.Cert?
                            && Expiry.DaysToExpire(content.cert.notAfter, now).Some?
    ensures r.Success? ==> r.value.Keys == {path}
    ensures r.Success? ==> exists na :: content == Single(Cert(na))
                                        && Expiry.DaysToExpire(na, now) == Some(r.value[path])
  {
    LeafDays(path, content, now)
  }

  /** `get_pkcs_days_to_expire`: the certificate of the PKCS#12 bundle at
      `path`. */
  function PkcsDaysToExpire(path: string, content: Content, now: int): (r: Result<Days, DecodeError>)
    ensures r.Success? <==> content.Single? && content.cert.Cert?
                            && Expiry.DaysToExpire(content.cert.notAfter, now).Some?
    ensures r.Success? ==> r.value.Keys == {path}
    ensures r.Success? ==> exists na :: content == Single(Cert(na))
                                        && Expiry.DaysToExpire(na, now) == Some(r.value[path])
  {
    LeafDays(path, content, now)
  }

  // ---------------------------------------------------------------------
  // Java KeyStore.

  /** One private-key entry: `cert_chain[0]` (an `IndexError` when the
      chain is empty), then the certificate's days. */
  function EntryDays(e: KeyEntry, now: int): (r: Result<int, DecodeError>)
    ensures |e.chain| == 0 ==> r == Failure(EmptyChain(e.alias))
    ensures |e.chain| > 0 ==> r == CertDays(e.chain[0], now)
  {
    if |e.chain| == 0 then Failure(EmptyChain(e.alias)) else CertDays(e.chain[0], now)
  }

  /** What the loop body computes for one private-key entry. */
  datatype Outcome = Outcome(alias: string, days: Result<int, DecodeError>)

  function Outcomes(entries: seq<KeyEntry>, now: int): (os: seq<Outcome>)
    ensures |os| == |entries|
    ensures forall i :: 0 <= i < |entries| ==> os[i] == Outcome(entries[i].alias, EntryDays(entries[i], now))
  {
    seq(|entries|, i requires 0 <= i < |entries| => Outcome(entries[i].alias, EntryDays(entries[i], now)))
  }

  /** The loop over `keystore.private_keys`, in order: the first entry that
      raises ends it; otherwise each alias is set to its entry's days (a
      repeated alias keeps the later entry's value). */
  function Tally(os: seq<Outcome>): (r: Result<Days, DecodeError>)
    ensures r.Success? ==> forall a :: a in r.value ==>
              exists i :: 0 <= i < |os| && os[i].alias == a && os[i].days == Success(r.value[a])
    ensures r.Failure? ==> exists i :: 0 <= i < |os| && os[i].days == Failure(r.error)
    decreases |os|
  {
    if |os| == 0 then Success(map[])
    else
      var last := os[|os| - 1];
      match Tally(os[..|os| - 1])
      case Failure(e) => Failure(e)
      case Success(m) =>
        match last.days
        case Failure(e) => Failure(e)
        case Success(d) => Success(m[last.alias := d])
  }

  function EntriesDays(entries: seq<KeyEntry>, now: int): Result<Days, DecodeError> {
    Tally(Outcomes(entries, now))
  }

  /** `get_jks_days_to_expire`. */
  function JksDaysToExpire(content: Content, now: int): (r: Result<Days, DecodeError>)
    ensures !content.Store? ==> r == Failure(LoadFailed)
    ensures content == Store([]) ==> r == Success(map[])
    ensures content.Store? ==> r == EntriesDays(content.privateKeys, now)
  {
    match content
    case Store(entries) => EntriesDays(entries, now)
    case _ => Failure(LoadFailed)
  }

  function Aliases(os: seq<Outcome>): set<string> {
    set i | 0 <= i < |os| :: os[i].alias
  }

  /** Index `i` holds the last occurrence of its alias. */
  predicate IsLastWithAlias(os: seq<Outcome>, i: int) {
    0 <= i < |os| && forall j :: i < j < |os| ==> os[j].alias != os[i].alias
  }

  /** The loop succeeds exactly when every entry does. */
  lemma {:induction false} TallySucceeds(os: seq<Outcome>)
    ensures Tally(os).Success? <==> forall i :: 0 <= i < |os| ==> os[i].days.Success?
    decreases |os|
  {
    if |os| > 0 {
      var n := |os| - 1;
      var init := os[..n];
      TallySucceeds(init);
      if Tally(init).Failure? {
        var i :| 0 <= i < n && init[i].days.Failure?;
        assert os[i] == init[i];
      } else if os[n].days.Success? {
        forall i | 0 <= i < |os| ensures os[i].days.Success? {
          if i < n {
            assert os[i] == init[i];
          }
        }
      }
    }
  }

  lemma AliasesSnoc(os: seq<Outcome>)
    requires |os| > 0
    ensures Aliases(os) == Aliases(os[..|os| - 1]) + {os[|os| - 1].alias}
  {
    var n := |os| - 1;
    var init := os[..n];
    forall a | a in Aliases(os) ensures a in Aliases(init) + {os[n].alias} {
      var i :| 0 <= i < |os| && os[i].alias == a;
      if i < n {
        assert init[i].alias == a;
      }
    }
    forall a | a in Aliases(init) ensures a in Aliases(os) {
      var i :| 0 <= i < n && init[i].alias == a;
      assert os[i].alias == a;
    }
  }

  /** On success the keys are exactly the entries' aliases. */
  lemma {:induction false} TallyKeys(os: seq<Outcome>)
    requires Tally(os).Success?
    ensures Tally(os).value.Keys == Aliases(os)
    decreases |os|
  {
    if |os| > 0 {
      TallyKeys(os[..|os| - 1]);
      AliasesSnoc(os);
    }
  }

  /** On success each alias holds the days of the last entry carrying it. */
  lemma {:induction false} TallyValues(os: seq<Outcome>, i: int)
    requires Tally(os).Success?
    requires IsLastWithAlias(os, i)
    ensures os[i].days.Success?
    ensures os[i].alias in Tally(os).value
    ensures Tally(os).value[os[i].alias] == os[i].days.value
    decreases |os|
  {
    var n := |os| - 1;
    var init := os[..n];
    if i < n {
      assert init[i] == os[i];
      assert IsLastWithAlias(init, i);
      TallyValues(init, i);
    }
  }

  /** The first entry that raises decides the failure. */
  lemma {:induction false} TallyFirstFailure(os: seq<Outcome>, k: int)
    requires 0 <= k < |os| && os[k].days.Failure?
    requires forall i :: 0 <= i < k ==> os[i].days.Success?
    ensures Tally(os) == Failure(os[k].days.error)
    decreases |os|
  {
    var n := |os| - 1;
    var init := os[..n];
    if k < n {
      assert init[k] == os[k];
      forall i | 0 <= i < k ensures init[i].days.Success? {
        assert init[i] == os[i];
      }
      TallyFirstFailure(init, k);
    } else {
      forall i | 0 <= i < n ensures init[i].days.Success? {
        assert init[i] == os[i];
      }
      TallySucceeds(init);
    }
  }

  lemma {:induction false} DistinctAliasesCount(os: seq<Outcome>)
    requires forall i, j :: 0 <= i < j < |os| ==> os[i].alias != os[j].alias
    ensures |Aliases(os)| == |os|
    decreases |os|
  {
    if |os| > 0 {
      var n := |os| - 1;
      DistinctAliasesCount(os[..n]);
      AliasesSnoc(os);
      assert os[n].alias !in Aliases(os[..n]);
    }
  }

  // The keystore decoder in terms of its entries.

  /** A keystore decodes exactly when every private-key entry has a
      non-empty chain whose leaf decodes and has a parseable `notAfter`;
      otherwise the first entry that fails decides the failure. */
  lemma JksSucceeds(entries: seq<KeyEntry>, now: int)
    ensures JksDaysToExpire(Store(entries), now).Success?
            <==> forall i :: 0 <= i < |entries| ==> EntryDays(entries[i], now).Success?
  {
    TallySucceeds(Outcomes(entries, now));
  }

  lemma JksFirstFailure(entries: seq<KeyEntry>, now: int, k: int)
    requires 0 <= k < |entries| && EntryDays(entries[k], now).Failure?
    requires forall i :: 0 <= i < k ==> EntryDays(entries[i], now).Success?
    ensures JksDaysToExpire(Store(entries), now) == Failure(EntryDays(entries[k], now).error)
  {
    TallyFirstFailure(Outcomes(entries, now), k);
  }

  lemma OutcomeAliases(entries: seq<KeyEntry>, now: int)
    ensures Aliases(Outcomes(entries, now)) == set i | 0 <= i < |entries| :: entries[i].alias
  {
    var os := Outcomes(entries, now);
    forall a | a in Aliases(os) ensures a in set i | 0 <= i < |entries| :: entries[i].alias {
      var i :| 0 <= i < |os| && os[i].alias == a;
      assert entries[i].alias == a;
    }
  }

  /** With distinct aliases (as the keys of `keystore.private_keys` are),
      a successful keystore answers one entry per private key, keyed by its
      own alias and computed from the first certificate of its chain; no
      other key appears. */
  /** A keystore decodes exactly when every private-key entry does, and its
      map then has exactly the entries' aliases as keys. */
  lemma JksAliasKeys(content: Content, now: int)
    ensures content.Store? ==>
              (JksDaysToExpire(content, now).Success? <==>
                 forall i :: 0 <= i < |content.privateKeys| ==> EntryDays(content.privateKeys[i], now).Success?)
    ensures JksDaysToExpire(content, now).Success? ==>
              && content.Store?
              && JksDaysToExpire(content, now).value.Keys
                 == set i | 0 <= i < |content.privateKeys| :: content.privateKeys[i].alias
  {
    if content.Store? {
      var entries := content.privateKeys;
      JksSucceeds(entries, now);
      OutcomeAliases(entries, now);
      if JksDaysToExpire(content, now).Success? {
        TallyKeys(Outcomes(entries, now));
      }
    }
  }

  lemma JksOnePerEntry(entries: seq<KeyEntry>, now: int)
    requires forall i, j :: 0 <= i < j < |entries| ==> entries[i].alias != entries[j].alias
    requires JksDaysToExpire(Store(entries), now).Success?
    ensures var r := JksDaysToExpire(Store(entries), now).value;
            && |r| == |entries|
            && r.Keys == set i | 0 <= i < |entries| :: entries[i].alias
    ensures forall i :: 0 <= i < |entries| ==>
              && |entries[i].chain| > 0
              && entries[i].alias in JksDaysToExpire(Store(entries), now).value
              && CertDays(entries[i].chain[0], now).Success?
              && JksDaysToExpire(Store(entries), now).value[entries[i].alias]
                   == CertDays(entries[i].chain[0], now).value
  {
    var os := Outcomes(entries, now);
    TallyKeys(os);
    OutcomeAliases(entries, now);
    forall i | 0 <= i < |entries|
      ensures && |entries[i].chain| > 0
              && entries[i].alias in Tally(os).value
              && CertDays(entries[i].chain[0], now).Success?
              && Tally(os).value[entries[i].alias] == CertDays(entries[i].chain[0], now).value
    {
      assert IsLastWithAlias(os, i);
      TallyValues(os, i);
    }
    DistinctAliasesCount(os);
  }

  /** A keystore without private-key entries answers an empty map, not an
      error. */
  lemma EmptyKeyStore(now: int)
    ensures JksDaysToExpire(Store([]), now) == Success(map[])
  {
  }
}
