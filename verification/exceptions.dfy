/** The exceptions the client's code paths can raise, as values. */
module Exceptions {

  datatype Exception =
    | IndexError        // a list index past the end of the pieces `str.split` produced
    | ValueError        // `int()` given text that is not an integer literal
    | AttributeError    // the client used its socket before `connect` created one
    | TypeError         // `connect` given no host name, as when the URL has none
    | ConnectError      // the socket could not connect (unknown host, refused, unreachable)
    | SendError         // `sendall` failed part-way or on a broken pipe
    | RecvError         // `recv` failed
    | DecodeError       // the received bytes are not valid UTF-8
}
