/**
 * The HTTP server library as the firmware uses it: `httpd_start` hands out a
 * handle for a running server, `httpd_stop` stops it, and a handler answers
 * one request with one response.
 */
module Httpd {

  /** An `httpd_handle_t`; 0 stands for NULL. */
  type Handle = nat

  const NULL: Handle := 0

  /** The response a handler sends. */
  datatype Response =
    | Page(contentType: string, body: string)   // 200 OK
    | SeeOther(location: string, body: string)  // 303 See Other with a Location header
    | ServerError                               // httpd_resp_send_500

  /** The servers the library is running, and the next handle it hands out. */
  class Daemon {
    var live: set<Handle>
    var next: Handle

    ghost predicate Valid()
      reads this
    {
      NULL < next && forall h :: h in live ==> NULL < h < next
    }

    constructor ()
      ensures Valid() && live == {}
    {
      live := {};
      next := 1;
    }

    /** `httpd_start`: a fresh handle for a new running server, or NULL when it fails (`ok` false). */
    method Start(ok: bool) returns (h: Handle)
      requires Valid()
      modifies this
      ensures Valid()
      ensures ok ==> h == old(next) && h !in old(live) && live == old(live) + {h} && next == h + 1
      ensures !ok ==> h == NULL && live == old(live) && next == old(next)
    {
      if ok {
        h := next;
        live := live + {h};
        next := next + 1;
      } else {
        h := NULL;
      }
    }

    /**
     * `httpd_stop`: the server behind `h` no longer runs. The handle must
     * name a running server; the library frees the server, so stopping a
     * handle a second time is not allowed.
     */
    method Stop(h: Handle)
      requires h in live
      modifies this`live
      ensures live == old(live) - {h}
    {
      live := live - {h};
    }
  }
}
