/** Verification of the label on a key along a chain of certificates. */
module CertChains {
  import opened Common
  import opened Labels
  import opened DomainNames

  /** A public key: the name of its owner, and its record, by which keys are compared. */
  datatype Key = Key(owner: DomainName, record: seq<int>)

  /** A certificate: what it signs, and the key it endorses if it endorses one. */
  datatype Cert = Cert(signed: seq<int>, endorsed: Option<Key>)

  /** The labels that the names of the owners stand for. */
  type Names = map<DomainName, seq<Label>>

  ghost predicate Named(chain: seq<Cert>, anchor: Key, names: Names)
    reads names.Keys, set d <- names.Keys :: d.nameBytes
  {
    && (forall d <- names.Keys :: d.Holds(names[d]))
    && anchor.owner in names && forall c <- chain :: c.endorsed.Some? ==> c.endorsed.value.owner in names
  }

  /** The key that has to have signed certificate i. */
  ghost function Signer(chain: seq<Cert>, anchor: Key, i: nat): Option<Key>
    requires i <= |chain|
  {
    if i == 0 then Some(anchor) else chain[i - 1].endorsed
  }

  /** Certificate i is signed by the key before it and endorses a key, and both owners have names. */
  ghost predicate Signed(chain: seq<Cert>, anchor: Key, i: nat, verify: (Cert, Key) -> bool, names: Names)
    requires i < |chain|
  {
    && Signer(chain, anchor, i).Some? && chain[i].endorsed.Some? && verify(chain[i], Signer(chain, anchor, i).value)
    && Signer(chain, anchor, i).value.owner in names && chain[i].endorsed.value.owner in names
    && Fits(names[Signer(chain, anchor, i).value.owner]) && Fits(names[chain[i].endorsed.value.owner])
  }

  /** And the name of that key passes the suffix test. */
  ghost predicate Link(chain: seq<Cert>, anchor: Key, i: nat, verify: (Cert, Key) -> bool, names: Names)
    requires i < |chain|
  {
    && Signed(chain, anchor, i, verify, names)
    && Under(names[chain[i].endorsed.value.owner], names[Signer(chain, anchor, i).value.owner])
  }

  /** Or makes the suffix test leave the name. */
  ghost predicate Broken(chain: seq<Cert>, anchor: Key, i: nat, verify: (Cert, Key) -> bool, names: Names)
    requires i < |chain|
  {
    && Signed(chain, anchor, i, verify, names)
    && LeavesName(names[chain[i].endorsed.value.owner], names[Signer(chain, anchor, i).value.owner])
  }

  predicate Matches(cert: Cert, self: Key) {
    cert.endorsed.Some? && cert.endorsed.value.record == self.record
  }

  /** The first n certificates lead from the anchor to a key with this record. */
  ghost predicate Vouched(self: Key, chain: seq<Cert>, anchor: Key, n: nat, verify: (Cert, Key) -> bool, names: Names) {
    && 0 < n <= |chain| && (forall i :: 0 <= i < n ==> Link(chain, anchor, i, verify, names))
    && Matches(chain[n - 1], self)
  }

  /** The first n certificates are linked and do not endorse this record, and the next one is broken. */
  ghost predicate Astray(self: Key, chain: seq<Cert>, anchor: Key, n: nat, verify: (Cert, Key) -> bool, names: Names) {
    && n < |chain| && (forall i :: 0 <= i < n ==> Link(chain, anchor, i, verify, names) && !Matches(chain[i], self))
    && Broken(chain, anchor, n, verify, names)
  }

  /** The first i certificates are linked and do not endorse this record. */
  ghost predicate Walked(self: Key, chain: seq<Cert>, anchor: Key, i: nat, verify: (Cert, Key) -> bool, names: Names) {
    i <= |chain| && forall j :: 0 <= j < i ==> Link(chain, anchor, j, verify, names) && !Matches(chain[j], self)
  }

  /** A certificate that is not linked ends the walk. */
  lemma StopAt(self: Key, chain: seq<Cert>, anchor: Key, i: nat, verify: (Cert, Key) -> bool, names: Names)
    requires Walked(self, chain, anchor, i, verify, names) && i < |chain| && !Link(chain, anchor, i, verify, names)
    ensures !exists n :: Vouched(self, chain, anchor, n, verify, names)
    ensures (exists n :: Astray(self, chain, anchor, n, verify, names)) <==> Broken(chain, anchor, i, verify, names)
  {
    hide Link, Broken, Matches;
    if Broken(chain, anchor, i, verify, names) {
      assert Astray(self, chain, anchor, i, verify, names);
    }
    forall n | Astray(self, chain, anchor, n, verify, names)
      ensures n == i
    {
      NotLinked(chain, anchor, n, verify, names);
    }
  }

  lemma NotLinked(chain: seq<Cert>, anchor: Key, i: nat, verify: (Cert, Key) -> bool, names: Names)
    requires i < |chain| && Broken(chain, anchor, i, verify, names)
    ensures !Link(chain, anchor, i, verify, names)
  {
    hide Under, LeavesName;
    NotBoth(names[chain[i].endorsed.value.owner], names[Signer(chain, anchor, i).value.owner]);
  }

  /** A linked certificate with this record ends it too. */
  lemma FoundAt(self: Key, chain: seq<Cert>, anchor: Key, i: nat, verify: (Cert, Key) -> bool, names: Names)
    requires Walked(self, chain, anchor, i, verify, names) && i < |chain| && Link(chain, anchor, i, verify, names)
    requires Matches(chain[i], self)
    ensures exists n :: Vouched(self, chain, anchor, n, verify, names)
    ensures !exists n :: Astray(self, chain, anchor, n, verify, names)
  {
    hide Link, Broken, Matches;
    assert Vouched(self, chain, anchor, i + 1, verify, names);
    forall n | Astray(self, chain, anchor, n, verify, names)
      ensures false
    {
      NotLinked(chain, anchor, n, verify, names);
    }
  }

  lemma WalkedAll(self: Key, chain: seq<Cert>, anchor: Key, verify: (Cert, Key) -> bool, names: Names)
    requires Walked(self, chain, anchor, |chain|, verify, names)
    ensures !exists n :: Vouched(self, chain, anchor, n, verify, names)
    ensures !exists n :: Astray(self, chain, anchor, n, verify, names)
  {
    hide Link, Broken, Matches;
    forall n | Astray(self, chain, anchor, n, verify, names)
      ensures false
    {
      NotLinked(chain, anchor, n, verify, names);
    }
  }

  lemma WalkedNext(self: Key, chain: seq<Cert>, anchor: Key, i: nat, verify: (Cert, Key) -> bool, names: Names)
    requires Walked(self, chain, anchor, i, verify, names) && i < |chain|
    requires Link(chain, anchor, i, verify, names) && !Matches(chain[i], self)
    ensures Walked(self, chain, anchor, i + 1, verify, names)
  {
    hide Link, Matches;
  }

  lemma LinkIs(chain: seq<Cert>, anchor: Key, i: nat, verify: (Cert, Key) -> bool, names: Names, cur: Key, next: Key)
    requires i < |chain| && Signer(chain, anchor, i) == Some(cur) && chain[i].endorsed == Some(next) && verify(chain[i], cur)
    requires cur.owner in names && next.owner in names && Fits(names[cur.owner]) && Fits(names[next.owner])
    ensures Link(chain, anchor, i, verify, names) <==> Under(names[next.owner], names[cur.owner])
    ensures Broken(chain, anchor, i, verify, names) <==> LeavesName(names[next.owner], names[cur.owner])
  {
    hide Under, LeavesName;
  }

  lemma NotSigned(chain: seq<Cert>, anchor: Key, i: nat, verify: (Cert, Key) -> bool, names: Names, cur: Key)
    requires i < |chain| && Signer(chain, anchor, i) == Some(cur) && (!verify(chain[i], cur) || chain[i].endorsed.None?)
    ensures !Link(chain, anchor, i, verify, names) && !Broken(chain, anchor, i, verify, names)
  {
  }

  lemma OwnersNamed(chain: seq<Cert>, anchor: Key, names: Names, i: nat)
    requires Named(chain, anchor, names) && i < |chain| && chain[i].endorsed.Some?
    ensures var d := chain[i].endorsed.value.owner; d in names && d.Holds(names[d])
  {
    assert chain[i] in chain;
  }

  /**
   * verifyLabel: true exactly if some prefix of the chain is linked from the anchor and ends in this key. It leaves a name
   * exactly if a suffix test along the chain does.
   */
  method VerifyLabel(self: Key, chain: seq<Cert>, anchor: Key, verify: (Cert, Key) -> bool, ghost names: Names)
    returns (r: Outcome)
    requires Named(chain, anchor, names)
    ensures r == Yes <==> exists n :: Vouched(self, chain, anchor, n, verify, names)
    ensures r == Yes ==> exists c <- chain :: c.endorsed.Some? && c.endorsed.value.record == self.record
    ensures r == OutOfBounds <==> exists n :: Astray(self, chain, anchor, n, verify, names)
  {
    assert anchor.owner.Holds(names[anchor.owner]);
    hide Named, Under, LeavesName, Link, Broken, Vouched, Astray, Walked, AllClean, NullFree, IsSuffix;
    var curKey := anchor;
    var i := 0;
    WalkedNone(self, chain, anchor, verify, names);
    while i < |chain|
      invariant 0 <= i <= |chain| && Signer(chain, anchor, i) == Some(curKey)
      invariant curKey.owner in names && curKey.owner.Holds(names[curKey.owner])
      invariant Walked(self, chain, anchor, i, verify, names)
    {
      var cert := chain[i];
      if !verify(cert, curKey) || cert.endorsed.None? {
        NotSigned(chain, anchor, i, verify, names, curKey);
        StopAt(self, chain, anchor, i, verify, names);
        return No;
      }
      var newKey := cert.endorsed.value;
      OwnersNamed(chain, anchor, names, i);
      LinkIs(chain, anchor, i, verify, names, curKey, newKey);
      var under := Suffix(newKey.owner, curKey.owner, names[newKey.owner], names[curKey.owner]);
      if under != Yes {
        StopAt(self, chain, anchor, i, verify, names);
        return under;
      }
      if Matches(cert, self) {
        FoundAt(self, chain, anchor, i, verify, names);
        EndorsedIn(self, chain, i);
        return Yes;
      }
      WalkedNext(self, chain, anchor, i, verify, names);
      curKey := newKey;
      i := i + 1;
    }
    WalkedAll(self, chain, anchor, verify, names);
    return No;
  }

  lemma EndorsedIn(self: Key, chain: seq<Cert>, i: nat)
    requires i < |chain| && Matches(chain[i], self)
    ensures exists c <- chain :: c.endorsed.Some? && c.endorsed.value.record == self.record
  {
    assert chain[i] in chain;
  }

  lemma WalkedNone(self: Key, chain: seq<Cert>, anchor: Key, verify: (Cert, Key) -> bool, names: Names)
    ensures Walked(self, chain, anchor, 0, verify, names)
  {
  }

  predicate AllEndorse(chain: seq<Cert>, n: nat)
    requires n <= |chain|
  {
    forall i :: 0 <= i < n ==> chain[i].endorsed.Some?
  }

  /** What a yes means: a key with exactly this record is endorsed at the end of a chain of signatures and names from the anchor. */
  lemma VouchedIff(self: Key, chain: seq<Cert>, anchor: Key, n: nat, verify: (Cert, Key) -> bool, names: Names)
    requires Named(chain, anchor, names)
    ensures Vouched(self, chain, anchor, n, verify, names) <==>
              && 0 < n <= |chain| && AllEndorse(chain, n) && chain[n - 1].endorsed.value.record == self.record
              && forall i :: 0 <= i < n ==>
                   var k := if i == 0 then anchor else chain[i - 1].endorsed.value;
                   verify(chain[i], k) && Under(names[chain[i].endorsed.value.owner], names[k.owner])
  {
    hide Under, DomainName.Holds;
    OwnersFit(chain, anchor, names);
    if 0 < n <= |chain| {
      if Vouched(self, chain, anchor, n, verify, names) {
        forall i | 0 <= i < n
          ensures chain[i].endorsed.Some?
        {
          assert Link(chain, anchor, i, verify, names);
        }
      }
      if AllEndorse(chain, n) {
        forall i | 0 <= i < n
          ensures Link(chain, anchor, i, verify, names) <==>
                    var k := if i == 0 then anchor else chain[i - 1].endorsed.value;
                    verify(chain[i], k) && Under(names[chain[i].endorsed.value.owner], names[k.owner])
        {
          assert chain[i] in chain && (i > 0 ==> chain[i - 1] in chain);
        }
        if Vouched(self, chain, anchor, n, verify, names) {
          forall i | 0 <= i < n
            ensures var k := if i == 0 then anchor else chain[i - 1].endorsed.value;
                    verify(chain[i], k) && Under(names[chain[i].endorsed.value.owner], names[k.owner])
          {
            assert Link(chain, anchor, i, verify, names);
          }
        }
      }
    }
  }

  lemma OwnersFit(chain: seq<Cert>, anchor: Key, names: Names)
    requires Named(chain, anchor, names)
    ensures anchor.owner in names && forall d <- names.Keys :: Fits(names[d])
    ensures forall c <- chain :: c.endorsed.Some? ==> c.endorsed.value.owner in names
  {
  }

  /** One chain vouches for one key. */
  lemma VouchedOnce(self: Key, other: Key, chain: seq<Cert>, anchor: Key, n: nat, verify: (Cert, Key) -> bool, names: Names)
    requires Named(chain, anchor, names) && Vouched(self, chain, anchor, n, verify, names)
    ensures Vouched(other, chain, anchor, n, verify, names) <==> other.record == self.record
  {
    hide Link, Under, Vouched, Named;
    VouchedIff(self, chain, anchor, n, verify, names);
    VouchedIff(other, chain, anchor, n, verify, names);
  }

  /** Every owner along a linked prefix passes the suffix test for the anchor's name, and lies under it if both are clean. */
  lemma {:induction false} OwnersUnderAnchor(chain: seq<Cert>, anchor: Key, n: nat, verify: (Cert, Key) -> bool, names: Names)
    requires n < |chain| && forall i :: 0 <= i <= n ==> Link(chain, anchor, i, verify, names)
    ensures chain[n].endorsed.Some? && chain[n].endorsed.value.owner in names && anchor.owner in names
    ensures var owner, top := names[chain[n].endorsed.value.owner], names[anchor.owner];
            && Fits(owner) && Fits(top) && Under(owner, top)
            && (AllClean(owner) && AllClean(top) ==> IsSuffix(top, owner))
    decreases n
  {
    hide Under, AllClean;
    assert Link(chain, anchor, n, verify, names);
    if n > 0 {
      OwnersUnderAnchor(chain, anchor, n - 1, verify, names);
      UnderTransitive(names[anchor.owner], names[chain[n - 1].endorsed.value.owner], names[chain[n].endorsed.value.owner]);
    } else {
      assert Link(chain, anchor, 0, verify, names);
    }
    UnderClean(names[chain[n].endorsed.value.owner], names[anchor.owner]);
  }

  /** The owner "a.com", one label, is accepted under the anchor "com". */
  method DottedOwner() returns (r: Outcome, anchor: Key, self: Key)
    ensures r == Yes && anchor.owner.Holds([[99, 111, 109]]) && self.owner.Holds([[97, 46, 99, 111, 109]])
    ensures !IsSuffix([[99, 111, 109]], [[97, 46, 99, 111, 109]])
  {
    hide Under, Vouched, Astray, Link, Fits, Wire, Dotted, Counted, IsSuffix;
    var com := OneLabel([99, 111, 109]);
    var dotted := OneLabel([97, 46, 99, 111, 109]);
    anchor, self := Key(com, [1]), Key(dotted, [2]);
    ghost var names: Names := map[com := [[99, 111, 109]], dotted := [[97, 46, 99, 111, 109]]];
    var chain := [Cert([], Some(self))];
    var verify := (c: Cert, k: Key) => true;
    DottedVouched(self, chain, anchor, verify, names);
    r := VerifyLabel(self, chain, anchor, verify, names);
  }

  /** The name of one label, read from its wire form. */
  method OneLabel(l: Label) returns (d: DomainName)
    requires 0 < |l| < 200
    ensures fresh(d) && fresh(d.nameBytes) && d.Holds([l])
  {
    hide Decode, Wire, Dotted, Counted, Fits, Overruns;
    d := new DomainName();
    var b := [|l|] + l + [0];
    DecodeOne(l, b);
    OneWire(l);
    var r := d.ReadWire(b);
  }

  lemma OneWire(l: Label)
    requires 0 < |l| < 200
    ensures Fits([l]) && |Wire([l])| <= MAX_LEN
  {
    WireLength([l]);
  }

  lemma DottedVouched(self: Key, chain: seq<Cert>, anchor: Key, verify: (Cert, Key) -> bool, names: Names)
    requires chain == [Cert([], Some(self))] && verify(chain[0], anchor) && anchor.owner in names && self.owner in names
    requires names[anchor.owner] == [[99, 111, 109]] && names[self.owner] == [[97, 46, 99, 111, 109]]
    ensures Vouched(self, chain, anchor, 1, verify, names) && !IsSuffix([[99, 111, 109]], [[97, 46, 99, 111, 109]])
  {
    hide Under;
    SuffixExample();
    DottedUnder();
    assert Link(chain, anchor, 0, verify, names);
  }
}
