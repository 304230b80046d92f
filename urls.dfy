/**
 * The fields of a WHATWG `URL` object that the extension reads. Parsing
 * itself (`new URL(text)`) is not modelled: callers receive an
 * `Option<Url>`, `None` standing for the `TypeError` the constructor throws
 * on text it cannot parse.
 */
module Urls {

  /**
   * `protocol` keeps its trailing colon (`"https:"`), `hostname` carries no
   * port, and `port` is empty when the URL uses its scheme's default port.
   */
  datatype Url = Url(protocol: string, hostname: string, port: string)

  predicate IsHttp(protocol: string) {
    protocol == "http:" || protocol == "https:"
  }
}
