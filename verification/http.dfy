/** What a handler hands to the HTTP server, with the server's sending calls
    reduced to the data they carry. */
module Http {
  import opened Base

  datatype Reply =
    /** Status 200, the given type, a body sent with `httpd_resp_send_chunk`;
        the last chunk is the empty one that ends the response. */
    | Chunked(contentType: string, chunks: seq<seq<byte>>)
    /** `httpd_resp_send_404`; its page is produced by the server. */
    | NotFound
    /** `httpd_resp_send` with status 200 and a whole NUL-terminated body. */
    | Whole(body: CString)

  /** The reply sent and the handler's return value. */
  datatype Served = Served(reply: Reply, err: EspErr)
}
