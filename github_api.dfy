/** The part of the GitHub contents API record the components read. */
module GitHubApi {
  import opened Wrappers

  /**
   * One entry of a directory listing. `kind` is the API's `type` field
   * (`dir`, `file`, `symlink`, `submodule`); `downloadUrl` is `None` where the
   * API gives `null`.
   */
  datatype Content = Content(
    name: string,
    path: string,
    sha: string,
    size: int,
    downloadUrl: Option<string>,
    kind: string)
}
