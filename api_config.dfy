/** How the browser client builds the address of a backend endpoint
    (frontend/src/config/api.js): the configured base URL followed by the path,
    with a `/` put in front of the path when it has none. */
module ApiConfig {
  import opened Wrappers

  /** `API_BASE_URL`: the build-time setting `VITE_API_URL` when it is a non-empty
      string, otherwise the empty string. Unset, every endpoint URL is a path on the
      page's own origin; set, every endpoint URL is the configured URL followed by
      that same-origin path. */
  function ApiBaseUrl(viteApiUrl: Option<string>): (base: string)
    ensures !Truthy(viteApiUrl) ==>
              forall path {:trigger GetApiUrl(base, path)} ::
                StartsWithSlash(GetApiUrl(base, path)) && GetApiUrl(base, path) == GetApiUrl("", path)
                && (StartsWithSlash(path) ==> GetApiUrl(base, path) == path)
    ensures Truthy(viteApiUrl) ==>
              forall path {:trigger GetApiUrl(base, path)} ::
                viteApiUrl.value <= GetApiUrl(base, path)
                && GetApiUrl(base, path) == viteApiUrl.value + GetApiUrl("", path)
  {
    if Truthy(viteApiUrl) then viteApiUrl.value else ""
  }

  predicate StartsWithSlash(path: string)
  {
    |path| > 0 && path[0] == '/'
  }

  /** `getApiUrl(path)`, with `API_BASE_URL` passed as `base`. */
  function GetApiUrl(base: string, path: string): (url: string)
    ensures |url| > |base| && url[..|base|] == base && url[|base|] == '/'
    ensures StartsWithSlash(path) ==> url == base + path
    ensures !StartsWithSlash(path) ==> url == base + "/" + path && |url| == |base| + |path| + 1
  {
    var cleanPath := if StartsWithSlash(path) then path else "/" + path;
    base + cleanPath
  }

  /** Writing the leading slash or leaving it out names the same endpoint. */
  lemma LeadingSlashIsOptional(base: string, path: string)
    requires !StartsWithSlash(path)
    ensures GetApiUrl(base, path) == GetApiUrl(base, "/" + path)
  {
  }

  /** The path is recoverable from the URL, up to its leading slash. */
  lemma PathIsRecoverable(base: string, path: string)
    ensures var url := GetApiUrl(base, path);
            url[|base| + 1..] == if StartsWithSlash(path) then path[1..] else path
  {
  }

  /** An empty path addresses the root of the base. */
  lemma EmptyPath(base: string)
    ensures GetApiUrl(base, "") == base + "/"
  {
  }

  /** Building a same-origin URL first and then prefixing a base gives the same
      address as prefixing the base directly. */
  lemma SameOriginThenBase(base: string, path: string)
    ensures GetApiUrl(base, GetApiUrl("", path)) == GetApiUrl(base, path)
  {
  }
}
