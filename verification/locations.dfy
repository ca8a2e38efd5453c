/**
 * The strings and choices `Extractor.extract` makes before calling the
 * analysis service: which endpoint and model to use, where the blob lives,
 * and the two URLs of the blob (plain and with its access token).
 */
module Locations {
  import opened Wrappers
  import opened Seqs

  /** The one form type analysed by the custom-trained model. */
  const CustomFormType: string := "K1-1065"

  /** The model requested for a form type the mapping does not know. */
  const DefaultModel: string := "unsorted"

  /** Which endpoint/key pair of the analysis service the client is built with. */
  datatype Service = Prebuilt | CustomK1

  /** `get_document_intelligence_client`: only K1-1065 goes to the custom endpoint. */
  function SelectService(formType: string): (s: Service)
    ensures s == CustomK1 <==> formType == CustomFormType
    ensures s == Prebuilt <==> formType != CustomFormType
  {
    if formType != CustomFormType then Prebuilt else CustomK1
  }

  /** `extractor_model_mapping.get(form_type, 'unsorted')`, the mapping being a parameter. */
  function ModelFor(mapping: map<string, string>, formType: string): (m: string)
    ensures formType in mapping ==> m == mapping[formType]
    ensures formType !in mapping ==> m == DefaultModel
  {
    if formType in mapping then mapping[formType] else DefaultModel
  }

  /** Splits `s` at its first `c` into what comes before and what comes after. */
  function SplitAt(s: string, c: char): (r: Option<(string, string)>)
    ensures r.None? <==> c !in s
    ensures r.Some? ==> s == r.value.0 + [c] + r.value.1 && c !in r.value.0
  {
    match IndexOf(s, c)
    case None => None
    case Some(i) =>
      assert s == s[..i] + [c] + s[i + 1..];
      Some((s[..i], s[i + 1..]))
  }

  /** Joining at `c` and splitting at the first `c` are inverse when `c` does not occur in the first part. */
  lemma SplitAtJoin(a: string, c: char, b: string)
    requires c !in a
    ensures SplitAt(a + [c] + b, c) == Some((a, b))
  {
    var s := a + [c] + b;
    assert s[..|a|] == a;
    IndexOfUnique(s, c, |a|);
    assert b == s[|a| + 1..];
  }

  /** `blob_location`: the blob's path inside the container, `{client_id}/{blob_name}`. */
  function BlobLocation(clientId: string, blobName: string): string {
    clientId + "/" + blobName
  }

  /** A blob location splits back into its client id and blob name, provided the id holds no slash. */
  lemma BlobLocationRoundTrip(clientId: string, blobName: string)
    requires '/' !in clientId
    ensures SplitAt(BlobLocation(clientId, blobName), '/') == Some((clientId, blobName))
  {
    SplitAtJoin(clientId, '/', blobName);
  }

  /** `doc_url`: the blob's URL without an access token. */
  function DocUrl(account: string, container: string, location: string): string {
    "https://" + account + ".blob.core.windows.net/" + container + "/" + location
  }

  /** `blob_sas_url`: the blob's URL with its access token as the query string. */
  function BlobSasUrl(account: string, container: string, location: string, sasToken: string): (u: string)
    ensures u == DocUrl(account, container, location) + "?" + sasToken
    ensures DocUrl(account, container, location) <= u
  {
    "https://" + account + ".blob.core.windows.net/" + container + "/" + location + "?" + sasToken
  }

  /**
   * The token URL splits at its first '?' into the plain URL and the token,
   * provided account, container and location contain no '?'.
   */
  lemma SasUrlRoundTrip(account: string, container: string, location: string, sasToken: string)
    requires '?' !in account && '?' !in container && '?' !in location
    ensures SplitAt(BlobSasUrl(account, container, location, sasToken), '?')
      == Some((DocUrl(account, container, location), sasToken))
  {
    var d := DocUrl(account, container, location);
    var host := "https://";
    var domain := ".blob.core.windows.net/";
    assert '?' !in host && '?' !in domain && '?' !in "/";
    assert d == host + account + domain + container + "/" + location;
    assert '?' !in d;
    SplitAtJoin(d, '?', sasToken);
  }
}
