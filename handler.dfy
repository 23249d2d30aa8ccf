/**
 * The per-connection SSH handler of the Git-over-SSH server. The handler
 * itself holds no state; each callback gets the session by value and hands
 * it back, so each is modelled as returning its result directly.
 */
module SshHandler {
  import opened Bytes
  import opened Wrappers
  import opened Transport
  import Utf8
  import Tokens
  import Relay

  /** The one user name that may log in, with no credentials. */
  const GitUser: string := "git"

  /** The SSH authentication methods a rejection may offer to continue with. */
  datatype MethodKind = NoneMethod | Password | PublicKey | HostBased | KeyboardInteractive

  datatype Auth = Accept | Reject(proceedWithMethods: Option<set<MethodKind>>)

  /** `auth_none`: accept the `git` user, reject everybody else with `proceed_with_methods: None`. */
  function AuthNone(user: string): (r: Auth)
    ensures r == Accept <==> user == GitUser
    ensures r != Accept ==> r == Reject(None)
  {
    if user == GitUser then Accept else Reject(None)
  }

  /** `data`: the client's bytes are discarded; nothing is sent and the session comes back as it was. */
  function Data(channel: ChannelId, data: seq<u8>, session: Session): (r: Session)
    ensures r.frames == session.frames
  {
    session
  }

  /** `extended_data`: like `data`, whatever the data type code. */
  function ExtendedData(channel: ChannelId, code: u32, data: seq<u8>, session: Session): (r: Session)
    ensures r.frames == session.frames
  {
    session
  }

  const UploadPack: string := "git-upload-pack"

  /** The repository every upload-pack runs on, whatever the client asked for. */
  const RepositoryPath: string := "./repos/rust.git"

  /** A process the handler starts: the program and its arguments. */
  datatype Command = Command(program: string, args: seq<string>)

  /**
   * The standard output of the started process: the bytes it yields, and
   * whether the read after the last of them fails instead of reporting end
   * of file.
   */
  datatype ChildStdout = ChildStdout(bytes: seq<u8>, readFails: bool)

  /** What starting `git-upload-pack` gives in the environment at hand. */
  datatype Spawn = SpawnFailed | Spawned(stdout: ChildStdout)

  /** The three places where `exec_request` panics. */
  datatype Panic = InvalidUtf8 | CannotSpawn | ReadFailed

  datatype Outcome = Panicked(panic: Panic) | Finished(session: Session, started: Option<Command>)

  /** The exec payload is `git-upload-pack <anything without a space>`. */
  predicate IsUploadPack(data: seq<u8>)
    ensures IsUploadPack(data) ==> Tokens.Count(data, SPACE) == 1
    ensures IsUploadPack(data) ==>
      |data| > |UploadPack| && data[..|UploadPack| + 1] == Ascii(UploadPack) + [SPACE]
  {
    Tokens.SplitCount(data, SPACE);
    Tokens.JoinSplit(data, SPACE);
    var cmd := Tokens.Split(data, SPACE);
    assert |cmd| == 2 ==> cmd[1..] == [cmd[1]] && data == cmd[0] + [SPACE] + cmd[1];
    |cmd| == 2 && cmd[0] == Ascii(UploadPack)
  }

  /** The payload `git-upload-pack <repo>`. */
  function UploadPackRequest(repo: seq<u8>): seq<u8> {
    Ascii(UploadPack) + [SPACE] + repo
  }

  lemma UploadPackHasNoSpace()
    ensures Tokens.Free(Ascii(UploadPack), SPACE)
  {
  }

  /** Splitting yields exactly two tokens precisely when the payload holds exactly one space. */
  lemma TwoTokensIffOneSpace(data: seq<u8>)
    ensures |Tokens.Split(data, SPACE)| == 2 <==> Tokens.Count(data, SPACE) == 1
  {
    Tokens.SplitCount(data, SPACE);
  }

  /**
   * Every `git-upload-pack <repo>` with a space-free `repo` is routed to
   * upload-pack with `repo` as second token, and is well-formed UTF-8 when
   * `repo` is.
   */
  lemma UploadPackRequestRouted(repo: seq<u8>)
    requires Tokens.Free(repo, SPACE)
    ensures IsUploadPack(UploadPackRequest(repo))
    ensures Tokens.Split(UploadPackRequest(repo), SPACE) == [Ascii(UploadPack), repo]
    ensures Utf8.Valid(repo) ==> Utf8.Valid(UploadPackRequest(repo))
  {
    UploadPackRequestSplit(repo);
    if Utf8.Valid(repo) {
      var head := Ascii(UploadPack) + [SPACE];
      Utf8.AsciiIsValid(head);
      Utf8.ValidConcat(head, repo);
    }
  }

  lemma UploadPackRequestSplit(repo: seq<u8>)
    requires Tokens.Free(repo, SPACE)
    ensures Tokens.Split(UploadPackRequest(repo), SPACE) == [Ascii(UploadPack), repo]
  {
    var parts := [Ascii(UploadPack), repo];
    UploadPackHasNoSpace();
    Tokens.SplitJoin(parts, SPACE);
    assert Tokens.Join(parts, SPACE) == UploadPackRequest(repo) by {
      assert parts[1..] == [repo];
    }
  }

  /** Only such payloads are routed to upload-pack: the second token is whatever follows the one space. */
  lemma UploadPackRequestsOnly(data: seq<u8>)
    requires IsUploadPack(data)
    ensures Tokens.Free(Tokens.Split(data, SPACE)[1], SPACE)
    ensures data == UploadPackRequest(Tokens.Split(data, SPACE)[1])
  {
    var cmd := Tokens.Split(data, SPACE);
    Tokens.JoinSplit(data, SPACE);
    Tokens.SplitPiecesFree(data, SPACE);
    assert cmd[1..] == [cmd[1]];
  }

  /** A doubled space makes three tokens, so `git-upload-pack  <repo>` is ignored. */
  lemma DoubleSpaceIgnored(repo: seq<u8>)
    requires Tokens.Free(repo, SPACE)
    ensures |Tokens.Split(Ascii(UploadPack) + [SPACE, SPACE] + repo, SPACE)| == 3
    ensures !IsUploadPack(Ascii(UploadPack) + [SPACE, SPACE] + repo)
  {
    var parts := [Ascii(UploadPack), [], repo];
    UploadPackHasNoSpace();
    Tokens.SplitJoin(parts, SPACE);
    assert Tokens.Join(parts, SPACE) == Ascii(UploadPack) + [SPACE, SPACE] + repo by {
      var tail := [[], repo];
      assert parts[1..] == tail && tail[1..] == [repo];
      assert Tokens.Join(tail, SPACE) == [] + [SPACE] + repo;
      assert Tokens.Join(parts, SPACE) == Ascii(UploadPack) + [SPACE] + ([SPACE] + repo);
    }
  }

  /**
   * `exec_request`: decode the payload, split it on single spaces, and act
   * only on exactly two tokens whose first is `git-upload-pack`. Then start
   * `git-upload-pack ./repos/rust.git` and relay its output to the channel.
   * Every other well-formed payload leaves the session as it was and starts
   * nothing.
   */
  method ExecRequest(channel: ChannelId, data: seq<u8>, session: Session, child: Spawn)
    returns (r: Outcome)
    ensures !Utf8.Valid(data) ==> r == Panicked(InvalidUtf8)
    ensures Utf8.Valid(data) && !IsUploadPack(data) ==> r == Finished(session, None)
    ensures Utf8.Valid(data) && IsUploadPack(data) && child.SpawnFailed? ==> r == Panicked(CannotSpawn)
    ensures Utf8.Valid(data) && IsUploadPack(data) && child.Spawned? ==>
      var out := child.stdout.bytes;
      if Relay.FlushEnd(out).None? && child.stdout.readFails then
        r == Panicked(ReadFailed)
      else
        r == Finished(Session(session.frames + ByteFrames(channel, out[..Relay.StopPoint(out)])),
                      Some(Command(UploadPack, [RepositoryPath])))
  {
    if !Utf8.Valid(data) {
      return Panicked(InvalidUtf8);
    }
    var cmd := Tokens.Split(data, SPACE);
    var session := session;
    if |cmd| == 2 {
      if cmd[0] == Ascii(UploadPack) {
        var started := Command(UploadPack, [RepositoryPath]);
        if child.SpawnFailed? {
          return Panicked(CannotSpawn);
        }
        var flushed;
        session, flushed := Relay.Relay(channel, child.stdout.bytes, session);
        if !flushed && child.stdout.readFails {
          return Panicked(ReadFailed);
        }
        return Finished(session, Some(started));
      }
    }
    return Finished(session, None);
  }
}
