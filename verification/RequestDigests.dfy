/** verify/receipts.go: what a registry event's request digest holds fast. */
module RequestDigests {
  import opened Bytes
  import opened JsonValue
  import opened Canonical
  import opened JsonEquality
  import opened JsonLimits
  import opened PhpValues
  import opened Preimages
  import opened Reconcile

  /** Two events ask for the same: six values, and nothing else of them. */
  ghost predicate SameRequest(a: Value, key: Option<Bytes>, b: Value, key': Option<Bytes>)
  {
    var (ra, rb) := (Field(Some(a), "resource"), Field(Some(b), "resource"));
    && Text(Field(Some(a), "occurred_at")) == Text(Field(Some(b), "occurred_at"))
    && Text(Field(Some(a), "actor")) == Text(Field(Some(b), "actor"))
    && Text(Field(Some(a), "action")) == Text(Field(Some(b), "action"))
    && (IsString(ra) || IsString(rb) ==> ra == rb)
    && Text(Field(Some(a), "payload_hash")) == Text(Field(Some(b), "payload_hash")) && key == key'
  }

  lemma RequestPrints(event: Value, key: Option<Bytes>)
    ensures Canon(RequestObject(event, key)).Some?
  {
    hide Field, Text, Ascii, Canon;
    PrintsExactly(RequestObject(event, key));
  }

  lemma SameAsked(a: Value, key: Option<Bytes>, b: Value, key': Option<Bytes>)
    requires SameRequest(a, key, b, key')
    ensures RequestObject(a, key) == RequestObject(b, key')
  {
    hide Ascii, Field, Text;
  }

  lemma SameObjects(a: Value, key: Option<Bytes>, b: Value, key': Option<Bytes>)
    requires Same(RequestObject(a, key), RequestObject(b, key'))
    ensures SameRequest(a, key, b, key')
  {
    var ms, ns := RequestObject(a, key).members, RequestObject(b, key').members;
    RequestShape(a, key);
    RequestShape(b, key');
    RequestNamesApart();
    NamedSame(ms, ns, REQUEST_NAMES);
    hide Preimages.NamedBy, GoodNames, Ascii, Field, Text;
    assert Same(ms[0].val, ns[0].val) && Same(ms[1].val, ns[1].val) && Same(ms[2].val, ns[2].val);
    assert Same(ms[3].val, ns[3].val) && Same(ms[4].val, ns[4].val) && Same(ms[5].val, ns[5].val);
  }

  /** Every request has a digest, and two have the same exactly when they ask for the same. */
  lemma DigestExactly(a: Value, key: Option<Bytes>, b: Value, key': Option<Bytes>)
    requires WellFormed(RequestObject(a, key)) && WellFormed(RequestObject(b, key'))
    requires Canon(RequestObject(a, key)).Some? && Canon(RequestObject(b, key')).Some? ==>
               NoCollision({Canon(RequestObject(a, key)).value, Canon(RequestObject(b, key')).value})
    ensures |RequestDigest(a, key)| == 71 && RequestDigest(a, key)[..7] == Ascii("sha256:")
    ensures RequestDigest(a, key) == RequestDigest(b, key') <==> SameRequest(a, key, b, key')
  {
    hide WellFormed, RequestObject, Canon, SameRequest, NoCollision, Same, Sha256Hex;
    RequestPrints(a, key);
    RequestPrints(b, key');
    DigestParts(a, key);
    DigestParts(b, key');
    if RequestDigest(a, key) == RequestDigest(b, key') {
      HashPins(RequestObject(a, key), RequestObject(b, key'));
      SameObjects(a, key, b, key');
    }
    if SameRequest(a, key, b, key') {
      SameAsked(a, key, b, key');
    }
  }

  lemma DigestParts(event: Value, key: Option<Bytes>)
    requires Canon(RequestObject(event, key)).Some?
    ensures var d := RequestDigest(event, key);
            |d| == 71 && d[..7] == Ascii("sha256:") && d[7..] == Sha256Hex(Canon(RequestObject(event, key)).value)
  {
    hide RequestObject, Canon;
    assert |Ascii("sha256:")| == 7;
  }
}
