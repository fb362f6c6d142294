/** Bounded Go channels as values: the contents, whether the channel is still open, and the history of
    what its reader has taken out. */
module Channels {

  datatype Option<+T> = None | Some(value: T)

  datatype Queue<T> = Queue(buf: seq<T>, open: bool, taken: seq<T>) {

    /** Everything that was ever accepted, in order. */
    function Accepted(): seq<T> {
      taken + buf
    }

    function Put(x: T): Queue<T> {
      this.(buf := buf + [x])
    }

    function Take(): Queue<T>
      requires buf != []
    {
      this.(buf := buf[1..], taken := taken + [buf[0]])
    }

    function Shut(): Queue<T> {
      this.(open := false)
    }
  }
}
