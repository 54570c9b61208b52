/** The master-password gate. A password is never stored: `setup_password`
    writes its digest to an artifact file once, and `verify_password`
    compares the digest of what the user types with the stripped file
    contents. The digest function (SHA-256 in hex) is a parameter of the
    model, and the artifact file is an optional string. */
module Gate {
  import opened Wrappers
  import opened Text

  /** Why `verify_password` ends the session. */
  datatype DenyReason = NoPasswordSet | IncorrectPassword

  /** `Denied` stands for the `exit()` calls: there is no retry. */
  datatype Access = Granted | Denied(reason: DenyReason)

  predicate IsHexChar(c: char) {
    IsDigit(c) || 'a' <= c <= 'f'
  }

  /** What `hexdigest()` produces: 64 lower-case hexadecimal digits. */
  predicate IsHexDigest(s: string) {
    |s| == 64 && forall i | 0 <= i < |s| :: IsHexChar(s[i])
  }

  /** The decision `verify_password` takes for password `pw` given the
      artifact file's contents (None when the file does not exist): it
      refuses without a file, and otherwise admits exactly the passwords
      whose digest equals the file's contents with surrounding whitespace
      removed. */
  function Decide(artifact: Option<string>, digest: string -> string, pw: string): (a: Access)
    ensures a == Denied(NoPasswordSet) <==> artifact.None?
    ensures a == Granted <==> artifact.Some? && digest(pw) == Strip(artifact.value)
    ensures a == Denied(IncorrectPassword) <==> artifact.Some? && digest(pw) != Strip(artifact.value)
  {
    if artifact.None? then Denied(NoPasswordSet)
    else if digest(pw) != Strip(artifact.value) then Denied(IncorrectPassword)
    else Granted
  }

  class PasswordGate {
    /** `hashlib.sha256(pw.encode()).hexdigest()`. */
    const digest: string -> string
    /** The contents of `master.hash`, or None when the file does not exist. */
    var artifact: Option<string>

    constructor (digest: string -> string, artifact: Option<string>)
      ensures this.digest == digest && this.artifact == artifact
    {
      this.digest := digest;
      this.artifact := artifact;
    }

    /** `setup_password`: an existing artifact is left alone; otherwise the
        digest of `pw` becomes the artifact. */
    method Setup(pw: string)
      modifies this
      ensures old(artifact).Some? ==> artifact == old(artifact)
      ensures old(artifact).None? ==> artifact == Some(digest(pw))
    {
      if artifact.Some? {
        return;
      }
      var hashed := digest(pw);
      artifact := Some(hashed);
    }

    /** `verify_password`: reads the artifact and decides; the artifact is
        not changed. */
    method Verify(pw: string) returns (a: Access)
      ensures a == Decide(artifact, digest, pw)
    {
      if artifact.None? {
        return Denied(NoPasswordSet);
      }
      var stored := Strip(artifact.value);
      if digest(pw) != stored {
        return Denied(IncorrectPassword);
      }
      return Granted;
    }
  }

  /** A hex digest has no whitespace at its ends. */
  lemma {:induction false} HexDigestTrimmed(s: string)
    requires IsHexDigest(s)
    ensures Trimmed(s)
  {
    assert IsHexChar(s[0]) && IsHexChar(s[|s| - 1]);
  }

  /** After setting up with password `p`, verification admits exactly the
      passwords with the same digest as `p`, and rejects every other one as
      incorrect. The digest must have no surrounding whitespace, which every
      hex digest satisfies (HexDigestTrimmed). */
  lemma {:induction false} SetupThenVerify(digest: string -> string, p: string, q: string)
    requires Trimmed(digest(p))
    ensures Decide(Some(digest(p)), digest, q) == Granted <==> digest(q) == digest(p)
    ensures digest(q) != digest(p) ==> Decide(Some(digest(p)), digest, q) == Denied(IncorrectPassword)
  {
    StripTrimmed(digest(p));
  }

  /** With a collision-free digest, the password set up is the only one
      admitted. */
  lemma {:induction false} OnlyTheSetupPassword(digest: string -> string, p: string, q: string)
    requires Trimmed(digest(p))
    requires forall x, y :: digest(x) == digest(y) ==> x == y
    ensures Decide(Some(digest(p)), digest, q) == Granted <==> q == p
  {
    SetupThenVerify(digest, p, q);
  }

  /** An artifact file edited to end in a newline still admits its password:
      the stored text is stripped before comparing. */
  lemma {:induction false} TrailingNewlineTolerated(digest: string -> string, p: string)
    requires Trimmed(digest(p)) && digest(p) != ""
    ensures Decide(Some(digest(p) + "\n"), digest, p) == Granted
  {
    var h := digest(p);
    var stored := h + "\n";
    assert stored[0] == h[0] && stored[|h| - 1] == h[|h| - 1] && stored[|h|] == '\n';
    assert SpaceEnd(stored, 0) == 0;
    assert SpaceStart(stored, 0, |h|) == |h|;
    assert SpaceStart(stored, 0, |stored|) == |h|;
    assert stored[0..|h|] == h;
  }

  /** The two steps of start-up in order on one gate: `setup_password` then
      `verify_password`, on a machine with no artifact yet. */
  method StartUp(digest: string -> string, setPw: string, typedPw: string) returns (a: Access)
    requires IsHexDigest(digest(setPw))
    ensures a == Granted <==> digest(typedPw) == digest(setPw)
    ensures a != Granted ==> a == Denied(IncorrectPassword)
  {
    HexDigestTrimmed(digest(setPw));
    var gate := new PasswordGate(digest, None);
    gate.Setup(setPw);
    gate.Setup(typedPw);
    a := gate.Verify(typedPw);
    SetupThenVerify(digest, setPw, typedPw);
  }
}
