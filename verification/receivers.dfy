/** What the program that embeds the library does with content (`ContentReceiver` and `Progress`,
    httplib.h:438, 502). */
module Receivers {
  import opened ByteStrings

  /** `content` is what the receiver has been given. It may refuse to go on at any time, and must not be
      called again then. */
  class Receiver {
    var content: Bytes
    var refuses: bool

    constructor ()
      ensures content == [] && !refuses
    {
      content, refuses := [], false;
    }

    method Take(data: Bytes) returns (more: bool)
      requires !refuses
      modifies this
      ensures content == old(content) + data && more == !refuses
    {
      content, refuses := content + data, *;
      more := !refuses;
    }

    /** The progress callback, which may refuse as well. */
    method Progress() returns (more: bool)
      requires !refuses
      modifies this`refuses
      ensures more == !refuses
    {
      refuses := *;
      more := !refuses;
    }
  }
}
