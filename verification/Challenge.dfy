/** Single-use enrollment codes, internal/authz/challenge.go. Constant-time
    comparison is plain equality here. */
module Challenge {
  import opened Authz

  datatype Otp = Otp(secret: string, expires: int)

  type Codes = map<string, Otp>

  /** The keys under which a code may have been registered for an identity. */
  function CandidateKeys(id: Identity): seq<string> {
    (if id.commonName != "" then [id.commonName] else [])
    + (if id.requestedCN != "" && id.requestedCN != id.commonName then [id.requestedCN] else [])
    + (if id.serial != "" then [id.serial] else [])
  }

  /** Only the first candidate key that has a code is tried. An expired code is
      cleaned up, a right one consumed, a wrong guess changes nothing. */
  function TryKeys(codes: Codes, keys: seq<string>, provided: string, now: int): (Codes, bool) {
    if keys == [] then (codes, false)
    else if keys[0] !in codes then TryKeys(codes, keys[1..], provided, now)
    else if now > codes[keys[0]].expires then (codes - {keys[0]}, false)
    else if provided != codes[keys[0]].secret then (codes, false)
    else (codes - {keys[0]}, true)
  }

  function Validated(codes: Codes, id: Identity, provided: string, now: int): (Codes, bool) {
    if provided == "" then (codes, false) else TryKeys(codes, CandidateKeys(id), provided, now)
  }

  /** The first of `keys` that has a code. */
  ghost predicate FirstRegistered(codes: Codes, keys: seq<string>, key: string) {
    exists i | 0 <= i < |keys| :: keys[i] == key && key in codes && forall j | 0 <= j < i :: keys[j] !in codes
  }

  /** A validation succeeds exactly when the first registered candidate holds this
      very secret, unexpired; then that one code is gone. A failure removes at most
      one code, and only an expired one. */
  lemma {:induction false} TryKeysMeaning(codes: Codes, keys: seq<string>, provided: string, now: int)
    ensures var (codes', ok) := TryKeys(codes, keys, provided, now);
            && (ok <==> exists key | FirstRegistered(codes, keys, key) ::
                          codes[key].secret == provided && now <= codes[key].expires)
            && (ok ==> exists key | FirstRegistered(codes, keys, key) ::
                          codes[key].secret == provided && now <= codes[key].expires && codes' == codes - {key})
            && (!ok ==> codes' == codes ||
                        exists key | key in codes :: now > codes[key].expires && codes' == codes - {key})
    decreases |keys|
  {
    if keys != [] {
      if keys[0] in codes {
        assert FirstRegistered(codes, keys, keys[0]);
        forall key | FirstRegistered(codes, keys, key) ensures key == keys[0] {
        }
      } else {
        TryKeysMeaning(codes, keys[1..], provided, now);
        forall key ensures FirstRegistered(codes, keys, key) <==> FirstRegistered(codes, keys[1..], key) {
          FirstRegisteredTail(codes, keys, key);
        }
      }
    }
  }

  lemma FirstRegisteredTail(codes: Codes, keys: seq<string>, key: string)
    requires keys != [] && keys[0] !in codes
    ensures FirstRegistered(codes, keys, key) <==> FirstRegistered(codes, keys[1..], key)
  {
    if FirstRegistered(codes, keys[1..], key) {
      var i :| 0 <= i < |keys| - 1 && keys[1..][i] == key && forall j | 0 <= j < i :: keys[1..][j] !in codes;
      assert keys[i + 1] == key;
      assert forall j | 0 < j < i + 1 :: keys[j] == keys[1..][j - 1];
    }
    if FirstRegistered(codes, keys, key) {
      var i :| 0 <= i < |keys| && keys[i] == key && key in codes && forall j | 0 <= j < i :: keys[j] !in codes;
      assert keys[1..][i - 1] == key;
      assert forall j | 0 <= j < i - 1 :: keys[1..][j] == keys[j + 1];
    }
  }

  predicate HasCode(codes: Codes, key: string) { key != "" && key in codes }

  /** Whose code is tried: the authenticated common name's if there is one, else the
      requested common name's, else the serial's, and never that of an empty key. */
  lemma FirstRegisteredInOrder(codes: Codes, id: Identity, key: string)
    ensures FirstRegistered(codes, CandidateKeys(id), key) <==>
            HasCode(codes, key) &&
            key == if HasCode(codes, id.commonName) then id.commonName
                   else if HasCode(codes, id.requestedCN) then id.requestedCN
                   else id.serial
  {
    var keys := CandidateKeys(id);
    var atRequested := if id.commonName in {"", id.requestedCN} then 0 else 1;
    assert id.commonName != "" ==> keys[0] == id.commonName;
    assert id.requestedCN != "" ==> keys[atRequested] == id.requestedCN;
    assert id.serial != "" ==> keys[|keys| - 1] == id.serial;
  }

  /** What a validation answers and what it takes: a secret is right if and only if it
      is the unexpired code of the one key tried; then, or if that code has expired,
      the code is gone, and nothing else ever changes. */
  lemma ValidationExactlyWhen(codes: Codes, id: Identity, provided: string, now: int)
    ensures var (codes', ok) := Validated(codes, id, provided, now);
            var key := if HasCode(codes, id.commonName) then id.commonName
                       else if HasCode(codes, id.requestedCN) then id.requestedCN
                       else id.serial;
            && (ok <==> provided != "" && HasCode(codes, key)
                        && codes[key].secret == provided && now <= codes[key].expires)
            && codes' == if provided != "" && HasCode(codes, key) && (ok || codes[key].expires < now)
                         then codes - {key} else codes
  {
    hide CandidateKeys;
    if provided != "" {
      forall key {
        FirstRegisteredInOrder(codes, id, key);
      }
      TriesTheFirst(codes, CandidateKeys(id), provided, now);
    }
  }

  lemma {:induction false} TriesTheFirst(codes: Codes, keys: seq<string>, provided: string, now: int)
    ensures (forall key :: !FirstRegistered(codes, keys, key)) ==> TryKeys(codes, keys, provided, now) == (codes, false)
    ensures forall key | FirstRegistered(codes, keys, key) ::
              TryKeys(codes, keys, provided, now) ==
              (if now > codes[key].expires then (codes - {key}, false)
               else if provided != codes[key].secret then (codes, false)
               else (codes - {key}, true))
    decreases |keys|
  {
    if keys != [] {
      if keys[0] in codes {
        assert FirstRegistered(codes, keys, keys[0]);
      } else {
        TriesTheFirst(codes, keys[1..], provided, now);
        forall key ensures FirstRegistered(codes, keys, key) <==> FirstRegistered(codes, keys[1..], key) {
          FirstRegisteredTail(codes, keys, key);
        }
      }
    }
  }

  class MemoryStore {
    var codes: Codes

    constructor ()
      ensures codes == map[]
    {
      codes := map[];
    }

    method Add(key: string, code: string, ttl: Duration, now: int)
      modifies this
      ensures codes == old(codes)[key := Otp(code, now + ttl)]
    {
      codes := codes[key := Otp(code, now + ttl)];
    }

    method Validate(id: Identity, provided: string, now: int) returns (ok: bool)
      modifies this
      ensures (codes, ok) == Validated(old(codes), id, provided, now)
    {
      if provided == "" {
        return false;
      }
      var keys := CandidateKeys(id);
      for i := 0 to |keys|
        invariant codes == old(codes)
        invariant TryKeys(codes, keys, provided, now) == TryKeys(codes, keys[i..], provided, now)
      {
        assert keys[i..][1..] == keys[i + 1..];
        if keys[i] in codes {
          var code := codes[keys[i]];
          if now > code.expires {
            codes := codes - {keys[i]};
            return false;
          }
          if provided != code.secret {
            return false;
          }
          codes := codes - {keys[i]};
          return true;
        }
      }
      return false;
    }
  }
}
