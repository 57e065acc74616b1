/** The output a printer writes to. */
module Output {

  class Sink<T> {
    var written: seq<T>

    constructor ()
      ensures written == []
    {
      written := [];
    }

    method Write(text: seq<T>)
      modifies this
      ensures written == old(written) + text
    {
      written := written + text;
    }
  }
}
