/** The users' MFA columns as the service reads and updates them. */
module MfaStore {
  import opened Base32
  import opened Bits
  import opened Mfa
  import opened Options
  import opened Totp

  datatype BeginResult = NoSuchUser | MfaAlreadyEnabled | Started(secret: string)

  class UserTable {
    var rows: map<string, Row>

    constructor ()
      ensures rows == map[]
    {
      rows := map[];
    }

    /** The stored secrets can be read, and enabled factors are complete. */
    ghost predicate Valid()
      reads this
    {
      forall id :: id in rows ==> RowInv(rows[id])
    }

    method BeginEnrolment(id: string, key: seq<byte>) returns (result: BeginResult)
      requires Valid()
      modifies this
      ensures Valid()
      ensures id !in old(rows) ==> result == NoSuchUser && rows == old(rows)
      ensures id in old(rows) ==> rows == old(rows)[id := Begin(old(rows)[id], key).0]
      ensures id in old(rows) ==> (result == MfaAlreadyEnabled <==> old(rows)[id].enabled)
      ensures result.Started? ==> Decoding(result.secret) == Some(key) && rows[id].secret == Some(result.secret)
    {
      if id !in rows { return NoSuchUser; }
      if rows[id].enabled {
        assert rows[id := rows[id]] == rows;
        return MfaAlreadyEnabled;
      }
      var secret := Base32Encode(key);
      Base32RoundTrip(key);
      rows := rows[id := rows[id].(secret := Some(secret), enabled := false, lastCounter := None)];
      return Started(secret);
    }

    method ConfirmEnrolment(hmac: Hmac, hash: Hash, id: string, code: string, now: nat, codes: seq<string>)
      returns (ok: bool)
      requires Valid() && 1 <= now < WORD * WORD - 1
      modifies this
      ensures Valid()
      ensures id !in old(rows) ==> !ok && rows == old(rows)
      ensures id in old(rows) ==> rows == old(rows)[id := Confirm(hmac, hash, old(rows)[id], code, now, codes).0]
      ensures id in old(rows) ==> ok == Confirm(hmac, hash, old(rows)[id], code, now, codes).1
    {
      hide Decoding;
      hide Verified;
      if id !in rows { return false; }
      var row := rows[id];
      assert rows[id := row] == rows;
      if row.secret.None? || row.enabled { return false; }
      var counter := VerifyCode(hmac, row.secret.value, code, now, None);
      if counter.None? { return false; }
      rows := rows[id := row.(enabled := true, lastCounter := counter, recoveryCodes := Some(HashAll(hash, codes)))];
      return true;
    }

    method VerifyMfa(hmac: Hmac, hash: Hash, id: string, code: string, now: nat) returns (factor: Option<Factor>)
      requires Valid() && 1 <= now < WORD * WORD - 1
      modifies this
      ensures Valid()
      ensures id !in old(rows) ==> factor.None? && rows == old(rows)
      ensures id in old(rows) ==> rows == old(rows)[id := Verify(hmac, hash, old(rows)[id], code, now).0]
      ensures id in old(rows) ==> factor == Verify(hmac, hash, old(rows)[id], code, now).1
    {
      hide Decoding;
      hide Verified;
      hide HashRecoveryCode;
      hide RemoveFirst;
      if id !in rows { return None; }
      var row := rows[id];
      assert rows[id := row] == rows;
      if !row.enabled || row.secret.None? { return None; }
      var totp := VerifyCode(hmac, row.secret.value, code, now, row.lastCounter);
      if totp.Some? {
        rows := rows[id := row.(lastCounter := totp)];
        return Some(TotpFactor);
      }
      var remaining, matched := FilterMatched(Stored(row), HashRecoveryCode(hash, code));
      if !matched { return None; }
      rows := rows[id := row.(recoveryCodes := Some(remaining))];
      return Some(RecoveryFactor);
    }

    method RegenerateRecoveryCodes(hash: Hash, id: string, codes: seq<string>) returns (done: bool)
      requires Valid()
      modifies this
      ensures Valid()
      ensures id !in old(rows) ==> !done && rows == old(rows)
      ensures id in old(rows) ==> rows == old(rows)[id := Regenerate(hash, old(rows)[id], codes).0]
      ensures id in old(rows) ==> done == old(rows)[id].enabled
    {
      if id !in rows { return false; }
      assert rows[id := rows[id]] == rows;
      if !rows[id].enabled { return false; }
      rows := rows[id := rows[id].(recoveryCodes := Some(HashAll(hash, codes)))];
      return true;
    }

    method DisableMfa(id: string)
      requires Valid()
      modifies this
      ensures Valid()
      ensures rows == if id in old(rows) then old(rows)[id := Disable(old(rows)[id])] else old(rows)
    {
      if id in rows {
        rows := rows[id := Row(None, false, None, None)];
      }
    }
  }
}
