/** The endpoint URLs the client builds (src/lib/apis/mod.rs, the `urls` macros). */
module Urls {

  /** `<protocol>://<addr>/`, the part every endpoint shares. */
  function Base(protocol: string, addr: string): string {
    protocol + "://" + addr + "/"
  }

  /** `PING_URL_V1!`. */
  function PingUrl(protocol: string, addr: string): string {
    protocol + "://" + addr + "/ping"
  }

  /** `UPLOAD_URL_V1!`. */
  function UploadUrl(protocol: string, addr: string): string {
    protocol + "://" + addr + "/upload"
  }

  /** `DOWNLOAD_URL_V1!`. */
  function DownloadUrl(protocol: string, addr: string): string {
    protocol + "://" + addr + "/download"
  }

  /**
   * The three endpoints of one server are its base `protocol://addr/` followed by
   * their own names, and differ from each other.
   */
  lemma {:induction false} EndpointsDistinct(protocol: string, addr: string)
    ensures var base := Base(protocol, addr);
            && PingUrl(protocol, addr) == base + "ping"
            && UploadUrl(protocol, addr) == base + "upload"
            && DownloadUrl(protocol, addr) == base + "download"
    ensures PingUrl(protocol, addr) != UploadUrl(protocol, addr)
    ensures PingUrl(protocol, addr) != DownloadUrl(protocol, addr)
    ensures UploadUrl(protocol, addr) != DownloadUrl(protocol, addr)
  {
    var base := Base(protocol, addr);
    assert PingUrl(protocol, addr)[|base|..] == "ping";
    assert UploadUrl(protocol, addr)[|base|..] == "upload";
    assert DownloadUrl(protocol, addr)[|base|..] == "download";
  }
}
