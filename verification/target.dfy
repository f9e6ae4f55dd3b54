/**
 * Where `GET` connects and what it asks for (httpclient.py lines 75-77):
 * the host name, path and port `urllib.parse.urlparse` found in the URL,
 * with an empty path read as `/` and a missing or zero port as 80.
 */
module Target {
  import opened Wrappers

  /** The port HTTP uses when the URL names none (section 4.2.1 of RFC 9110). */
  const DefaultHttpPort: nat := 80

  /** The parts of a parsed URL that `GET` reads: `hostname`, `path` and `port`. */
  datatype UrlParts = UrlParts(hostname: Option<string>, path: string, port: Option<nat>)

  /** The host, path and port `GET` goes on with. */
  datatype Target = Target(host: Option<string>, path: string, port: nat)

  /** `path if path else "/"`. */
  function DefaultPath(path: string): (r: string)
    ensures r != []
    ensures path != [] ==> r == path
  {
    if path != [] then path else "/"
  }

  /** `int(port) if port else 80`: a missing port and port 0 are both falsy. */
  function DefaultPort(port: Option<nat>): (r: nat)
    ensures r > 0
    ensures port.Some? && port.value != 0 ==> r == port.value
  {
    if port.Some? && port.value != 0 then port.value else DefaultHttpPort
  }

  /** Lines 75-77 together. */
  function Resolve(u: UrlParts): (t: Target)
    ensures t.host == u.hostname
    ensures t.path != [] && t.port > 0
  {
    Target(u.hostname, DefaultPath(u.path), DefaultPort(u.port))
  }

  /** The path asked for is `/` exactly when the URL's path is empty or is `/` itself. */
  lemma ResolvedRoot(u: UrlParts)
    ensures Resolve(u).path == "/" <==> u.path == "" || u.path == "/"
  {
  }

  /** The port is 80 exactly when the URL names none, names 0, or names 80. */
  lemma ResolvedDefaultPort(u: UrlParts)
    ensures Resolve(u).port == DefaultHttpPort
      <==> u.port == None || u.port == Some(0) || u.port == Some(DefaultHttpPort)
  {
  }

  /** Resolving what was resolved changes nothing: the defaults are fixed points. */
  lemma ResolveIdempotent(u: UrlParts)
    ensures Resolve(UrlParts(Resolve(u).host, Resolve(u).path, Some(Resolve(u).port))) == Resolve(u)
  {
  }
}
