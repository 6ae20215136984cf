/** The credential check that `load_yaml` performs on the map read from the
    YAML file: the map is handed back unchanged when it holds all three
    Mastodon keys, and the process exits with a message otherwise. */
module Credentials {

  /** The keys `load_yaml` insists on. */
  const REQUIRED_KEYS: set<string> :=
    {"mastodon_client_id", "mastodon_client_secret", "mastodon_access_token"}

  /** Either the credential map, or the message `sys.exit` terminates with. */
  datatype Loaded = Ok(data: map<string, string>) | Exit(message: string)

  /** The abort message names the file that was read. */
  function MissingMessage(filename: string): (m: string)
    ensures |filename| < |m|
    ensures m[|m| - |filename|..] == filename
  {
    "Mastodon credentials missing from YAML: " + filename
  }

  /** The key check of `load_yaml` on the already parsed document `data`. */
  function LoadCredentials(filename: string, data: map<string, string>): (r: Loaded)
    ensures r.Ok? <==> forall k <- REQUIRED_KEYS :: k in data
    ensures r.Ok? ==> r.data == data
    ensures r.Exit? ==> r.message == MissingMessage(filename)
  {
    if data.Keys >= REQUIRED_KEYS then Ok(data) else Exit(MissingMessage(filename))
  }

  /** Any one required key missing is enough to abort. */
  lemma MissingKeyAborts(filename: string, data: map<string, string>, k: string)
    requires k in REQUIRED_KEYS && k !in data
    ensures LoadCredentials(filename, data) == Exit(MissingMessage(filename))
  {
  }

  /** Extra keys never cause a rejection: adding entries for keys other than
      the required ones keeps an accepted map accepted, and a rejected map
      rejected. */
  lemma ExtraKeysDoNotMatter(filename: string, data: map<string, string>, extra: map<string, string>)
    requires forall k <- extra :: k !in REQUIRED_KEYS
    ensures LoadCredentials(filename, data + extra).Ok? == LoadCredentials(filename, data).Ok?
  {
  }

  /** The map with exactly the three documented keys is accepted; dropping
      the access token makes it abort. */
  lemma DocumentedFileIsAccepted(filename: string, id: string, secret: string, token: string)
    ensures
      var data := map["mastodon_client_id" := id, "mastodon_client_secret" := secret,
                      "mastodon_access_token" := token];
      LoadCredentials(filename, data) == Ok(data) &&
      LoadCredentials(filename, data - {"mastodon_access_token"}).Exit?
  {
  }
}
