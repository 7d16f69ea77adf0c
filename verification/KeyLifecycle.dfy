/**
 The life of the master key in cryptfs.c: checking a password at boot, the migration
 from PBKDF2 to scrypt, changing and verifying the password, across reboots and changes
 of the scrypt tuning property. The key itself never changes; only its wrapping does.

 The key derivations (PBKDF2, section 5.2 of RFC 8018; scrypt, section 6 of RFC 7914)
 and the cipher are parameters: all that is asked of them is that decryption undoes
 encryption under the same derived key.
 */
module KeyLifecycle {
  import opened Basics
  import opened PersistTable
  import opened Metadata

  type Password = string

  datatype Suite = Suite(
    pbkdf2: (Password, Bytes) -> Bytes,
    scrypt: (Password, Bytes, ScryptParams) -> Bytes,
    enc: (Bytes, Bytes) -> Bytes,
    dec: (Bytes, Bytes) -> Bytes)

  ghost predicate Lawful(s: Suite) {
    forall k, m :: s.dec(k, s.enc(k, m)) == m
  }

  // A key wrapped under scrypt does not come out of a PBKDF2 unwrapping.
  ghost predicate Separates(s: Suite) {
    forall pw, salt, params, m ::
      s.dec(s.pbkdf2(pw, salt), s.enc(s.scrypt(pw, salt, params), m)) != m
  }

  // decrypt_master_key: the footer's own KDF type and parameters decide.
  function Unwrap(s: Suite, f: Footer, pw: Password): Bytes {
    if f.kdfType == KDF_SCRYPT then s.dec(s.scrypt(pw, f.salt, f.params), f.masterKey)
    else s.dec(s.pbkdf2(pw, f.salt), f.masterKey)
  }

  // encrypt_master_key: always scrypt, with the device's current parameters; the KDF type
  // of the footer is left as it is.
  function Wrap(s: Suite, f: Footer, pw: Password, key: Bytes, prop: ScryptParams): Footer {
    f.(params := prop, masterKey := s.enc(s.scrypt(pw, f.salt, prop), key))
  }

  // The footer on disk, the key kept in memory after a good password, and the property.
  datatype State = State(footer: Footer, saved: Option<Bytes>, prop: ScryptParams)

  // `Check` and `ChangePw` carry what the outside world does: whether the mapping is
  // created, whether the decrypted filesystem mounts, which footer writes succeed, and
  // the stack garbage used as a key when the footer says the key is not encrypted.
  datatype Event =
    | Check(pw: Password, mapped: bool, mounts: bool, put1: bool, put2: bool, garbage: Bytes)
    | ChangePw(newpw: Password, put: bool)
    | Verify(guess: Password)
    | Reboot
    | SetProperty(params: ScryptParams)

  function Loaded(st: State, off: nat): Footer {
    FooterRead(Disk(st.footer, map[]), off, st.prop)
  }

  predicate CanRead(f: Footer) {
    f.magic == MAGIC && f.major == CURRENT_MAJOR
  }

  function MappedKey(s: Suite, f: Footer, pw: Password, garbage: Bytes): Bytes {
    if f.flags & MNT_KEY_UNENCRYPTED == 0 then Unwrap(s, f, pw) else garbage
  }

  function Step(s: Suite, off: nat, st: State, ev: Event): State {
    match ev
    case Reboot => st.(saved := None)
    case SetProperty(p) => st.(prop := p)
    case Verify(_) => if st.saved.Some? && CanRead(st.footer) then st.(footer := Loaded(st, off)) else st
    case ChangePw(pw, put) =>
      if st.saved.None? || !CanRead(st.footer) then st
      else
        var f := Loaded(st, off);
        st.(footer := if put then Wrap(s, f, pw, st.saved.value, st.prop) else f)
    case Check(pw, mapped, mounts, put1, put2, garbage) =>
      if st.saved.Some? || !CanRead(st.footer) then st
      else
        var f := Loaded(st, off);
        var key := MappedKey(s, f, pw, garbage);
        if !mapped then st.(footer := f)
        else
          var g := f.(failedCount := if mounts then 0 else U32(f.failedCount + 1));
          var onDisk := if g.failedCount != f.failedCount && put1 then g else f;
          if g.failedCount != 0 then st.(footer := onDisk)
          else if g.kdfType == KDF_SCRYPT then st.(footer := onDisk, saved := Some(key))
          else
            var h := Wrap(s, g.(kdfType := KDF_SCRYPT), pw, key, st.prop);
            st.(footer := if put2 then h else onDisk, saved := Some(key))
  }

  function Run(s: Suite, off: nat, st: State, evs: seq<Event>): State {
    if evs == [] then st
    else Step(s, off, Run(s, off, st, evs[..|evs| - 1]), evs[|evs| - 1])
  }

  // Whether a check rewraps the key under scrypt and gets the new footer to disk.
  predicate Migrates(off: nat, st: State, ev: Event) {
    && ev.Check? && ev.mapped && ev.put2 && st.saved.None? && CanRead(st.footer)
    && (ev.mounts || U32(Loaded(st, off).failedCount + 1) == 0)
    && Loaded(st, off).kdfType != KDF_SCRYPT
  }

  // The password in force after an event. A migration wraps the key under the guess that
  // was accepted, which PBKDF2 does not force to be the password it was wrapped under.
  function PasswordAfter(off: nat, st: State, pw: Password, ev: Event): Password {
    if ev.ChangePw? && ev.put && st.saved.Some? && CanRead(st.footer) then ev.newpw
    else if Migrates(off, st, ev) then ev.pw
    else pw
  }

  function CurrentPassword(s: Suite, off: nat, st: State, pw: Password, evs: seq<Event>): Password {
    if evs == [] then pw
    else
      var front := evs[..|evs| - 1];
      PasswordAfter(off, Run(s, off, st, front), CurrentPassword(s, off, st, pw, front), evs[|evs| - 1])
  }

  // ---------- One step ----------

  // The footer opens with the password in force to the one master key, and a key held in
  // memory is that key.
  ghost predicate Opens(s: Suite, off: nat, st: State, pw: Password, key: Bytes) {
    && CanRead(st.footer)
    && st.footer.flags & MNT_KEY_UNENCRYPTED == 0
    && Unwrap(s, Loaded(st, off), pw) == key
    && (st.saved.Some? ==> st.saved.value == key)
  }

  // Only the right key mounts, and the 32-bit failure counter does not wrap to zero.
  ghost predicate Honest(s: Suite, off: nat, st: State, ev: Event, key: Bytes) {
    ev.Check? && ev.mapped ==>
      && (ev.mounts ==> MappedKey(s, Loaded(st, off), ev.pw, ev.garbage) == key)
      && (!ev.mounts ==> U32(Loaded(st, off).failedCount + 1) != 0)
  }

  // Once read, a footer stays as it was read, whatever the property becomes.
  lemma LoadedSettles(st: State, off: nat, saved: Option<Bytes>, prop: ScryptParams)
    requires CanRead(st.footer)
    ensures Loaded(st, off).minor >= CURRENT_MINOR && CanRead(Loaded(st, off))
    ensures Loaded(State(Loaded(st, off), saved, prop), off) == Loaded(st, off)
    ensures Loaded(st, off).masterKey == st.footer.masterKey && Loaded(st, off).salt == st.footer.salt
    ensures Loaded(st, off).flags == st.footer.flags
  {
  }

  lemma CheckKeepsTheKey(s: Suite, off: nat, st: State, pw: Password, key: Bytes, ev: Event)
    requires Lawful(s) && Opens(s, off, st, pw, key) && Honest(s, off, st, ev, key)
    requires ev.Check? && ev.mapped && st.saved.None?
    ensures Opens(s, off, Step(s, off, st, ev), PasswordAfter(off, st, pw, ev), key)
  {
    LoadedSettles(st, off, None, st.prop);
    var f := Loaded(st, off);
    var st' := Step(s, off, st, ev);
    if Migrates(off, st, ev) {
      var wrapping := s.scrypt(ev.pw, f.salt, st.prop);
      assert st'.footer.masterKey == s.enc(wrapping, key);
      assert s.dec(wrapping, s.enc(wrapping, key)) == key;
    } else {
      assert st'.footer.masterKey == f.masterKey && st'.footer.kdfType == f.kdfType;
    }
  }

  // The one event that can lose the key is a password change on a footer whose KDF type is
  // not scrypt: every other event keeps it, whichever footer writes fail.
  lemma StepKeepsTheKey(s: Suite, off: nat, st: State, pw: Password, key: Bytes, ev: Event)
    requires Lawful(s) && Opens(s, off, st, pw, key) && Honest(s, off, st, ev, key)
    requires ev.ChangePw? && st.saved.Some? && ev.put ==> Loaded(st, off).kdfType == KDF_SCRYPT
    ensures Opens(s, off, Step(s, off, st, ev), PasswordAfter(off, st, pw, ev), key)
  {
    var st' := Step(s, off, st, ev);
    if ev.Check? && ev.mapped && st.saved.None? {
      CheckKeepsTheKey(s, off, st, pw, key, ev);
    } else {
      LoadedSettles(st, off, st'.saved, st'.prop);
      if ev.ChangePw? && st.saved.Some? && ev.put {
        var wrapping := s.scrypt(ev.newpw, st'.footer.salt, st.prop);
        assert s.dec(wrapping, s.enc(wrapping, key)) == key;
      }
    }
  }

  // Exactly when a password change keeps the key: when the footer it loads says scrypt.
  lemma ChangePwKeepsTheKeyIff(s: Suite, off: nat, st: State, newpw: Password, key: Bytes)
    requires Lawful(s) && Separates(s)
    requires CanRead(st.footer) && st.saved == Some(key)
    ensures Unwrap(s, Loaded(Step(s, off, st, ChangePw(newpw, true)), off), newpw) == key
            <==> Loaded(st, off).kdfType == KDF_SCRYPT
  {
    LoadedSettles(st, off, st.saved, st.prop);
    var f := Loaded(st, off);
    if f.kdfType != KDF_SCRYPT {
      assert s.dec(s.pbkdf2(newpw, f.salt), s.enc(s.scrypt(newpw, f.salt, st.prop), key)) != key;
    }
  }

  // ---------- Whole runs ----------

  // In every run whose footer writes succeed, from a device that has not been unlocked
  // yet: the footer keeps opening to the one master key, and an unlocked device has
  // already been migrated, so no password change can meet the wrong KDF type.
  ghost predicate Safe(s: Suite, off: nat, st: State, pw: Password, key: Bytes) {
    && Opens(s, off, st, pw, key)
    && (st.saved.Some? ==> st.footer.minor >= CURRENT_MINOR && st.footer.kdfType == KDF_SCRYPT)
  }

  predicate WritesSucceed(ev: Event) {
    (ev.Check? ==> ev.put1 && ev.put2) && (ev.ChangePw? ==> ev.put)
  }

  lemma SafeStep(s: Suite, off: nat, st: State, pw: Password, key: Bytes, ev: Event)
    requires Lawful(s) && Safe(s, off, st, pw, key) && Honest(s, off, st, ev, key) && WritesSucceed(ev)
    ensures Safe(s, off, Step(s, off, st, ev), PasswordAfter(off, st, pw, ev), key)
  {
    LoadedSettles(st, off, st.saved, st.prop);
    StepKeepsTheKey(s, off, st, pw, key, ev);
  }

  ghost predicate HonestRun(s: Suite, off: nat, st: State, evs: seq<Event>, key: Bytes) {
    forall i :: 0 <= i < |evs| ==> HonestAt(s, off, st, evs, key, i)
  }

  ghost predicate HonestAt(s: Suite, off: nat, st: State, evs: seq<Event>, key: Bytes, i: nat)
    requires i < |evs|
  {
    Honest(s, off, Run(s, off, st, evs[..i]), evs[i], key) && WritesSucceed(evs[i])
  }

  lemma {:induction false} RunKeepsTheKey(s: Suite, off: nat, st: State, pw: Password, key: Bytes, evs: seq<Event>)
    requires Lawful(s) && Safe(s, off, st, pw, key) && HonestRun(s, off, st, evs, key)
    ensures Safe(s, off, Run(s, off, st, evs), CurrentPassword(s, off, st, pw, evs), key)
  {
    if evs != [] {
      var n := |evs| - 1;
      var front := evs[..n];
      forall i | 0 <= i < |front| ensures HonestAt(s, off, st, front, key, i) {
        assert HonestAt(s, off, st, evs, key, i) && front[..i] == evs[..i];
      }
      RunKeepsTheKey(s, off, st, pw, key, front);
      assert HonestAt(s, off, st, evs, key, n);
      SafeStep(s, off, Run(s, off, st, front), CurrentPassword(s, off, st, pw, front), key, evs[n]);
    }
  }

  // An unlocked device verifies exactly the passwords that unwrap its key, so always the
  // one in force.
  lemma VerifyIsExact(s: Suite, off: nat, st: State, pw: Password, key: Bytes, guess: Password)
    requires Safe(s, off, st, pw, key) && st.saved.Some?
    ensures VerifyAnswer(s, off, st, guess) == 0 <==> Unwrap(s, Loaded(st, off), guess) == key
    ensures VerifyAnswer(s, off, st, pw) == 0
  {
  }

  function VerifyAnswer(s: Suite, off: nat, st: State, guess: Password): int {
    if st.saved.None? || !CanRead(st.footer) then -1
    else
      var f := Loaded(st, off);
      if f.flags & MNT_KEY_UNENCRYPTED != 0 then 0
      else if Unwrap(s, f, guess) == st.saved.value then 0
      else 1
  }

  // ---------- Where it does go wrong ----------

  // A guess is accepted exactly when the filesystem mounts or the failure counter wraps:
  // the 2^32th failure in a row reads as success.
  lemma AcceptedIff(s: Suite, off: nat, st: State, ev: Event)
    requires ev.Check? && ev.mapped && st.saved.None? && CanRead(st.footer)
    ensures Step(s, off, st, ev).saved.Some?
            <==> ev.mounts || Loaded(st, off).failedCount == TWO_TO_THE_32 - 1
  {
  }

  // A toy suite: each derivation gives a fixed tag, and wrapping prefixes it.
  const ToySuite := Suite(
    (pw, salt) => [1],
    (pw, salt, params) => [2],
    (k: Bytes, m: Bytes) => k + m,
    (k: Bytes, c: Bytes) => if |k| <= |c| && c[..|k|] == k then c[|k|..] else [0] + c)

  lemma ToySuiteIsLawful()
    ensures Lawful(ToySuite) && Separates(ToySuite)
  {
    forall k: Bytes, m: Bytes ensures ToySuite.dec(k, ToySuite.enc(k, m)) == m {
      assert (k + m)[..|k|] == k && (k + m)[|k|..] == m;
    }
    forall pw, salt, params, m: Bytes
      ensures ToySuite.dec(ToySuite.pbkdf2(pw, salt), ToySuite.enc(ToySuite.scrypt(pw, salt, params), m)) != m
    {
      assert ([2] + m)[..1] == [2];
      assert |[0] + ([2] + m)| == |m| + 2;
    }
  }

  // If the footer write of the migration fails, the device is unlocked all the same, and
  // the next password change leaves a footer the new password does not open.
  lemma FailedMigrationThenChangeLosesTheKey()
    ensures exists st: State, evs: seq<Event> ::
              && |evs| == 2 && Safe(ToySuite, 0, st, "old", [7])
              && evs[0] == Check("old", true, true, true, false, []) && evs[1] == ChangePw("new", true)
              && Honest(ToySuite, 0, st, evs[0], [7])
              && Unwrap(ToySuite, Loaded(Run(ToySuite, 0, st, evs), 0), "new") != [7]
  {
    ToySuiteIsLawful();
    var prop := ScryptParams(15, 3, 1);
    var f := Footer(MAGIC, 1, 2, 0, 0, 0, [1, 7], [], 0, 0, 0, KDF_PBKDF2, prop);
    var st := State(f, None, prop);
    var check, change := Check("old", true, true, true, false, []), ChangePw("new", true);
    var evs := [check, change];
    assert [1, 7][..1] == [1] && [1, 7][1..] == [7];
    assert Unwrap(ToySuite, f, "old") == [7];
    assert Loaded(st, 0) == f;
    var unlocked := Step(ToySuite, 0, st, check);
    assert unlocked == State(f, Some([7]), prop);
    assert Run(ToySuite, 0, st, []) == st;
    assert evs[..1] == [check] && [check][..0] == [];
    assert Run(ToySuite, 0, st, [check]) == unlocked;
    assert Run(ToySuite, 0, st, evs) == Step(ToySuite, 0, unlocked, change);
    ChangePwKeepsTheKeyIff(ToySuite, 0, unlocked, "new", [7]);
  }

  // ---------- The procedures ----------

  // What an event does for every password and key: the footer goes on opening to the key
  // under the password in force, whichever writes fail, but for a password change on a
  // footer that is not scrypt; and it is safe from those too if the writes succeed.
  ghost predicate KeepsKey(s: Suite, off: nat, before: State, ev: Event, after: State) {
    forall pw: Password, key: Bytes :: Lawful(s) && Honest(s, off, before, ev, key) ==>
      && (Opens(s, off, before, pw, key)
          && (ev.ChangePw? && before.saved.Some? && ev.put ==> Loaded(before, off).kdfType == KDF_SCRYPT)
          ==> Opens(s, off, after, PasswordAfter(off, before, pw, ev), key))
      && (Safe(s, off, before, pw, key) && WritesSucceed(ev)
          ==> Safe(s, off, after, PasswordAfter(off, before, pw, ev), key))
  }

  lemma EventKeepsKey(s: Suite, off: nat, st: State, ev: Event)
    ensures KeepsKey(s, off, st, ev, Step(s, off, st, ev))
  {
    forall pw: Password, key: Bytes | Lawful(s) && Honest(s, off, st, ev, key)
      ensures Opens(s, off, st, pw, key)
              && (ev.ChangePw? && st.saved.Some? && ev.put ==> Loaded(st, off).kdfType == KDF_SCRYPT)
              ==> Opens(s, off, Step(s, off, st, ev), PasswordAfter(off, st, pw, ev), key)
      ensures Safe(s, off, st, pw, key) && WritesSucceed(ev)
              ==> Safe(s, off, Step(s, off, st, ev), PasswordAfter(off, st, pw, ev), key)
    {
      if Opens(s, off, st, pw, key)
         && (ev.ChangePw? && st.saved.Some? && ev.put ==> Loaded(st, off).kdfType == KDF_SCRYPT) {
        StepKeepsTheKey(s, off, st, pw, key, ev);
      }
      if Safe(s, off, st, pw, key) && WritesSucceed(ev) {
        SafeStep(s, off, st, pw, key, ev);
      }
    }
  }

  // A password is tried: no key is in memory yet and the footer can be read.
  predicate Tries(footer: Footer, saved: Option<Bytes>) {
    saved.None? && CanRead(footer)
  }

  // One failure more is none to a 32-bit counter.
  predicate Wraps(count: u32) {
    U32(count + 1) == 0
  }

  class Cryptfs {
    const suite: Suite
    const off: nat
    var footer: Footer           // on disk
    var saved: Option<Bytes>     // saved_master_key, when master_key_saved
    var prop: ScryptParams       // ro.crypto.scrypt_params

    constructor (suite: Suite, off: nat, footer: Footer, prop: ScryptParams)
      ensures this.suite == suite && this.off == off && Abs() == State(footer, None, prop)
    {
      this.suite, this.off, this.footer, this.prop := suite, off, footer, prop;
      saved := None;
    }

    ghost function Abs(): State
      reads this
    {
      State(footer, saved, prop)
    }

    // get_crypt_ftr_and_key
    method GetFooter() returns (rc: int, f: Footer)
      modifies this`footer
      ensures rc == 0 <==> CanRead(old(footer))
      ensures rc == 0 ==> f == old(Loaded(Abs(), off)) && footer == f
      ensures rc != 0 ==> rc == -1 && footer == old(footer)
    {
      f := footer;
      if f.magic != MAGIC || f.major != CURRENT_MAJOR {
        return -1, f;
      }
      if f.minor < CURRENT_MINOR {
        f := Upgraded(f, off, prop);
        footer := f;
      }
      return 0, f;
    }

    // put_crypt_ftr_and_key
    method PutFooter(f: Footer, ok: bool) returns (rc: int)
      modifies this`footer
      ensures rc == (if ok then 0 else -1) && footer == if ok then f else old(footer)
    {
      if ok {
        footer := f;
        return 0;
      }
      return -1;
    }

    // test_mount_encrypted_fs
    method CheckPasswd(pw: Password, mapped: bool, mounts: bool, put1: bool, put2: bool, garbage: Bytes)
      returns (rc: int)
      modifies this`footer, this`saved
      ensures Abs() == Step(suite, off, old(Abs()), Check(pw, mapped, mounts, put1, put2, garbage))
      // whatever is written, the footer opens to the same key under the password in force;
      // and with the writes done, no later change of password can lose it
      ensures KeepsKey(suite, off, old(Abs()), Check(pw, mapped, mounts, put1, put2, garbage), Abs())
      // refused: no key, nothing written but an upgrade
      ensures old(saved).Some? || !CanRead(old(footer)) || !mapped ==>
                rc == -1 && saved == old(saved)
                && footer == if old(saved).None? && CanRead(old(footer)) then old(Loaded(Abs(), off)) else old(footer)
      // a guess that does not mount is counted, and the count is the answer
      ensures old(Tries(footer, saved)) && mapped && !mounts && !Wraps(old(footer.failedCount)) ==>
                && rc == I32(old(footer.failedCount) + 1) && saved == None
                && footer == old(Loaded(Abs(), off)).(
                               failedCount := U32(old(footer.failedCount) + if put1 then 1 else 0))
      // one that mounts, or makes the counter wrap, leaves the key in memory, and no failure
      // counted if anything is written
      ensures old(Tries(footer, saved)) && mapped && (mounts || Wraps(old(footer.failedCount))) ==>
                var f := old(Loaded(Abs(), off));
                && saved == Some(MappedKey(suite, f, pw, garbage))
                && rc == (if f.kdfType == KDF_SCRYPT || put2 then 0 else -1)
                && footer.failedCount == (if put1 || (put2 && f.kdfType != KDF_SCRYPT) then 0 else f.failedCount)
                && (footer.kdfType == KDF_SCRYPT <==> f.kdfType == KDF_SCRYPT || put2)
      ensures rc == 0 <==> old(Tries(footer, saved)) && mapped && (mounts || Wraps(old(footer.failedCount)))
                           && (old(Loaded(Abs(), off)).kdfType == KDF_SCRYPT || put2)
    {
      EventKeepsKey(suite, off, Abs(), Check(pw, mapped, mounts, put1, put2, garbage));
      if saved.Some? {
        return -1;
      }
      var got, f := GetFooter();
      if got != 0 {
        return -1;
      }
      var original := f.failedCount;
      var key := garbage;
      if f.flags & MNT_KEY_UNENCRYPTED == 0 {
        key := Unwrap(suite, f, pw);
      }
      if !mapped {
        return -1;
      }
      if !mounts {
        f := f.(failedCount := U32(f.failedCount + 1));
      } else {
        f := f.(failedCount := 0);
      }
      if original != f.failedCount {
        var _ := PutFooter(f, put1);
      }
      if f.failedCount != 0 {
        return I32(f.failedCount);
      }
      saved := Some(key);
      rc := 0;
      if f.kdfType != KDF_SCRYPT {
        f := f.(kdfType := KDF_SCRYPT);
        f := Wrap(suite, f, pw, key, prop);
        rc := PutFooter(f, put2);
      }
    }

    // cryptfs_changepw: the result of the footer write is not looked at.
    method ChangePassword(newpw: Password, put: bool) returns (rc: int)
      modifies this`footer
      ensures Abs() == Step(suite, off, old(Abs()), ChangePw(newpw, put))
      ensures KeepsKey(suite, off, old(Abs()), ChangePw(newpw, put), Abs())
      ensures rc == if saved.Some? && CanRead(old(footer)) then 0 else -1
      ensures saved == old(saved) && (rc == -1 ==> footer == old(footer))
      // only the wrapping changes, and only if the footer is written
      ensures rc == 0 ==> footer == old(Loaded(Abs(), off)).(masterKey := footer.masterKey, params := footer.params)
                          && (!put ==> footer == old(Loaded(Abs(), off)))
      // the new password opens the footer to the key in memory exactly if the KDF type was
      // scrypt
      ensures rc == 0 && put && Lawful(suite) && Separates(suite) ==>
                (Unwrap(suite, Loaded(Abs(), off), newpw) == saved.value
                 <==> old(Loaded(Abs(), off)).kdfType == KDF_SCRYPT)
    {
      EventKeepsKey(suite, off, Abs(), ChangePw(newpw, put));
      if saved.Some? && CanRead(footer) && Lawful(suite) && Separates(suite) {
        ChangePwKeepsTheKeyIff(suite, off, Abs(), newpw, saved.value);
      }
      if saved.None? {
        return -1;
      }
      var got, f := GetFooter();
      if got != 0 {
        return -1;
      }
      f := Wrap(suite, f, newpw, saved.value, prop);
      var _ := PutFooter(f, put);
      return 0;
    }

    // cryptfs_verify_passwd, on an encrypted device
    method VerifyPasswd(guess: Password) returns (rc: int)
      modifies this`footer
      ensures Abs() == Step(suite, off, old(Abs()), Verify(guess))
      ensures KeepsKey(suite, off, old(Abs()), Verify(guess), Abs())
      ensures rc == VerifyAnswer(suite, off, old(Abs()), guess)
      // -1 exactly without a key or a footer, otherwise 0 exactly if the guess gives that key
      ensures rc in {0, 1, -1} && saved == old(saved)
      ensures rc == -1 <==> saved.None? || !CanRead(old(footer))
      ensures rc != -1 ==> (rc == 0 <==> footer.flags & MNT_KEY_UNENCRYPTED != 0
                                         || Unwrap(suite, footer, guess) == saved.value)
      ensures footer == if rc == -1 then old(footer) else old(Loaded(Abs(), off))
      // on an unlocked device: 0 exactly for a password that opens the footer to the key in
      // memory, the one in force among them
      ensures forall pw: Password, key: Bytes :: old(Safe(suite, off, Abs(), pw, key)) && saved.Some? ==>
                (rc == 0 <==> Unwrap(suite, footer, guess) == key) && (guess == pw ==> rc == 0)
    {
      EventKeepsKey(suite, off, Abs(), Verify(guess));
      if saved.None? {
        return -1;
      }
      var got, f := GetFooter();
      if got != 0 {
        return -1;
      }
      if f.flags & MNT_KEY_UNENCRYPTED != 0 {
        return 0;
      }
      var key := Unwrap(suite, f, guess);
      return if key == saved.value then 0 else 1;
    }
  }
}
