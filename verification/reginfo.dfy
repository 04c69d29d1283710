/**
 The nickname directory (reginfo.go): registered nicknames and their password hashes.
 */
module Directory {
  import opened Options
  import Bcrypt

  /** One registered nickname. */
  datatype RegInfo = RegInfo(nickname: string, passwordHash: Bcrypt.Digest)

  /** The directory, keyed by nickname. */
  type RegMap = map<string, RegInfo>

  /** Every record sits under its own nickname. */
  predicate KeyedByNickname(m: RegMap) {
    forall n :: n in m ==> m[n].nickname == n
  }

  /** Whether `password` matches the record's stored hash. */
  function CheckPassword(reg: RegInfo, password: string): bool
  {
    Bcrypt.CompareHashAndPassword(reg.passwordHash, password)
  }

  /** Hashes a password at minimum cost; `None` when hashing fails. */
  function HashAndSalt(password: string, salt: Option<nat>): (r: Option<Bcrypt.Digest>)
    ensures r.Some? <==> salt.Some?
    ensures r.Some? ==> Bcrypt.CompareHashAndPassword(r.value, password)
  {
    Bcrypt.GenerateFromPassword(password, Bcrypt.MinCost, salt)
  }

  /** Stores a fresh record for `n` (replacing any record already there) and
      returns it; on a hashing failure the directory is left as it was. */
  function CreateNewReg(m: RegMap, n: string, password: string, salt: Option<nat>): (r: (RegMap, Option<RegInfo>))
    ensures salt.None? ==> r.0 == m && r.1 == None
    ensures salt.Some? ==>
      && r.1.Some?
      && n in r.0 && r.0[n] == r.1.value
      && r.1.value.nickname == n
      && CheckPassword(r.1.value, password)
    ensures r.0.Keys == m.Keys + (if salt.Some? then {n} else {})
    ensures forall k :: k in m && k != n ==> r.0[k] == m[k]
  {
    match HashAndSalt(password, salt)
    case None => (m, None)
    case Some(hash) =>
      var reg := RegInfo(n, hash);
      (m[n := reg], Some(reg))
  }

  /** Whether `n` has a record. */
  function IsAlreadyRegistered(m: RegMap, n: string): bool
  {
    n in m
  }

  /** A record just created accepts exactly the passwords whose 72-byte
      bcrypt key (`Bcrypt.Key`) equals the one it was created with. */
  lemma CreatedRecordAcceptsSameKey(m: RegMap, n: string, password: string, salt: nat, other: string)
    ensures var r := CreateNewReg(m, n, password, Some(salt));
      CheckPassword(r.1.value, other) <==> Bcrypt.Key(other) == Bcrypt.Key(password)
  {
  }

  /** Creating a record keeps every record sitting under its own nickname. */
  lemma CreateNewRegKeepsKeying(m: RegMap, n: string, password: string, salt: Option<nat>)
    requires KeyedByNickname(m)
    ensures KeyedByNickname(CreateNewReg(m, n, password, salt).0)
  {
  }
}
