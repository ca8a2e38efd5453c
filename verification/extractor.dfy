/**
 * `Extractor.extract` as a whole: the analysis request it builds for one
 * uploaded blob, and what it returns once the service has answered with the
 * analysed documents.
 */
module Extractor {
  import opened Wrappers
  import opened Dicts
  import opened Flatten
  import opened Locations

  /** The storage account and container the extractor was constructed for. */
  datatype Account = Account(name: string, container: string)

  /** The analysis call: which service, which model, and the URL the service reads the blob from. */
  datatype Request = Request(service: Service, modelId: string, urlSource: string)

  /**
   * The request `extract` sends. The access token is produced by the storage
   * service and is a parameter here.
   */
  function AnalysisRequest(acct: Account, clientId: string, blobName: string, formType: string,
                           sasToken: string, mapping: map<string, string>): Request
  {
    var location := BlobLocation(clientId, blobName);
    Request(SelectService(formType), ModelFor(mapping, formType),
            BlobSasUrl(acct.name, acct.container, location, sasToken))
  }

  /**
   * What `extract` returns for the documents the service reported: one flat
   * dict per document and the blob's plain URL, or the error that aborted the
   * flattening.
   */
  function ExtractResult(acct: Account, clientId: string, blobName: string,
                         docs: seq<Document>): (r: Result<(seq<Dict<Entry>>, string), ExtractionError>)
    ensures r.Ok? ==> r.value.1 == DocUrl(acct.name, acct.container, BlobLocation(clientId, blobName))
    ensures r.Ok? ==> |r.value.0| == |docs|
    ensures r.Ok? ==> forall i :: 0 <= i < |docs| ==> FlattenDocument(docs[i]) == Ok(r.value.0[i])
    ensures r.Err? <==> exists i :: 0 <= i < |docs| && FlattenDocument(docs[i]).Err?
  {
    match FlattenAll(docs)
    case Err(e) => Err(e)
    case Ok(flat) => Ok((flat, DocUrl(acct.name, acct.container, BlobLocation(clientId, blobName))))
  }

  /**
   * The URL `extract` returns (the plain blob URL) is the URL it asked the
   * service to read, with the access token cut off.
   */
  lemma ReturnedUrlIsRequestWithoutToken(acct: Account, clientId: string, blobName: string, formType: string,
                                         sasToken: string, mapping: map<string, string>)
    requires '?' !in acct.name && '?' !in acct.container && '?' !in clientId && '?' !in blobName
    ensures var req := AnalysisRequest(acct, clientId, blobName, formType, sasToken, mapping);
      SplitAt(req.urlSource, '?') == Some((DocUrl(acct.name, acct.container, BlobLocation(clientId, blobName)), sasToken))
  {
    var location := BlobLocation(clientId, blobName);
    assert location == clientId + ("/" + blobName);
    assert '?' !in "/" + blobName;
    SasUrlRoundTrip(acct.name, acct.container, location, sasToken);
  }
}
