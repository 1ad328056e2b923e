/**
 * The inert store: a drop-in store without fields. Listings are empty, no
 * path is a folder or a file, sizes are zero, reads yield no bytes, writes
 * are discarded, the working directory is always "/", and nothing fails.
 * A session is a sequence of calls; the store answers each call on its own.
 */
module Noop {
  import opened FileSystem

  /** A call to the store, with the bytes a caller writes through writeTo's stream. */
  datatype Call =
    | Open
    | Ls
    | LsPath(path: string)
    | IsDirectory(path: string)
    | IsFile(path: string)
    | GetSize(path: string)
    | WriteTo(filename: string, written: seq<byte>)
    | ReadFrom(filename: string)
    | Chdir(path: string)
    | Pushd(path: string)
    | Popd
    | Mkdir(path: string)
    | Rmdir(path: string)
    | Delete(path: string)
    | Pwd
    | Close

  /** What a call gives back: nothing, a listing, a flag, a size, bytes kept or read, or a text. */
  datatype Reply = Done | Listing(names: seq<string>) | Flag(b: bool) | Size(n: nat) | Bytes(bytes: seq<byte>) | Text(s: string)

  /** The reply to one call; the stream writeTo hands out is the null stream, which keeps no byte. */
  function Answer(c: Call): (r: Result<Reply>)
    ensures r.Ok?
    ensures r.value.Listing? ==> r.value.names == []
    ensures r.value.Bytes? ==> r.value.bytes == []
    ensures r.value.Flag? ==> !r.value.b
    ensures r.value.Size? ==> r.value.n == 0
  {
    match c
    case Open | Chdir(_) | Pushd(_) | Popd | Mkdir(_) | Rmdir(_) | Delete(_) | Close => Ok(Done)
    case Ls | LsPath(_) => Ok(Listing([]))
    case IsDirectory(_) | IsFile(_) => Ok(Flag(false))
    case GetSize(_) => Ok(Size(0))
    case WriteTo(_, _) => Ok(Bytes([]))
    case ReadFrom(_) => Ok(Bytes([]))
    case Pwd => Ok(Text("/"))
  }

  /** The replies to a session of calls, in order. */
  function Session(calls: seq<Call>): (replies: seq<Result<Reply>>)
    ensures |replies| == |calls|
  {
    if calls == [] then [] else [Answer(calls[0])] + Session(calls[1..])
  }

  /**
   * Each call gets the constant answer of its kind: empty listings, false
   * flags, size zero, no bytes read, no bytes kept, "/" as working
   * directory, and nothing else for the commands. No call fails.
   */
  lemma Answers(c: Call)
    ensures Answer(c).Ok?
    ensures (c.Ls? || c.LsPath?) ==> Answer(c).value == Listing([])
    ensures (c.IsDirectory? || c.IsFile?) ==> Answer(c).value == Flag(false)
    ensures c.GetSize? ==> Answer(c).value == Size(0)
    ensures (c.ReadFrom? || c.WriteTo?) ==> Answer(c).value == Bytes([])
    ensures c.Pwd? ==> Answer(c).value == Text("/")
    ensures (c.Open? || c.Close? || c.Chdir? || c.Pushd? || c.Popd? || c.Mkdir? || c.Rmdir? || c.Delete?) ==>
      Answer(c).value == Done
  {
  }

  /**
   * No call changes anything: in any session, whatever came before, every
   * call gets the answer it gets alone, and none fails.
   */
  lemma {:induction false} SessionAnswers(calls: seq<Call>)
    ensures forall i :: 0 <= i < |calls| ==> Session(calls)[i] == Answer(calls[i]) && Session(calls)[i].Ok?
    decreases |calls|
  {
    if calls != [] {
      SessionAnswers(calls[1..]);
      Answers(calls[0]);
      forall i | 0 <= i < |calls| ensures Session(calls)[i] == Answer(calls[i]) && Session(calls)[i].Ok? {
        if i > 0 {
          assert Session(calls)[i] == Session(calls[1..])[i - 1];
        }
        Answers(calls[i]);
      }
    }
  }

  /** The order of calls does not matter: a session split in two is answered as its halves. */
  lemma SessionSplits(first: seq<Call>, second: seq<Call>)
    ensures Session(first + second) == Session(first) + Session(second)
  {
    SessionAnswers(first + second);
    SessionAnswers(first);
    SessionAnswers(second);
    assert forall i :: 0 <= i < |first| ==> (first + second)[i] == first[i];
    assert forall i :: |first| <= i < |first + second| ==> (first + second)[i] == second[i - |first|];
  }
}
