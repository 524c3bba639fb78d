/** `NetworkResult` from the HTTP layer: its defaults and the success test on the status code. */
module NetworkResult {
  import opened CppArith

  const HTTP_STATUS_CODE_OK := 200
  const HTTP_STATUS_CODE_NO_CONTENT := 204
  const HTTP_STATUS_CODE_PARTIAL_CONTENT := 206
  const HTTP_STATUS_CODE_FORBIDDEN := 403
  const HTTP_STATUS_CODE_NOT_FOUND := 404

  /**
   * The value fields of `NetworkResult`. `fail` reports a transport failure only: a response
   * carrying an HTTP error code such as 404 still has `fail == false`.
   */
  datatype NetworkResult = NetworkResult(
    redirectedUrl: string,
    fail: bool,
    error: string,
    statusCode: int,
    statusMessage: string,
    data: seq<bv8>,
    responseHeaders: map<string, string>)
  {
    /** `status_code / 100 == 2`, with C++'s truncating division. */
    predicate StatusCodeIsSuccess(): (b: bool)
      ensures 200 <= statusCode <= 299 ==> b
    {
      Quot(statusCode, 100) == 2
    }
  }

  /** The default-constructed result. */
  function DefaultResult(): (r: NetworkResult)
    ensures r.statusCode == -1 && !r.fail
    ensures r.redirectedUrl == "" && r.error == "" && r.statusMessage == "" && r.data == []
    ensures r.responseHeaders == map[]
  {
    NetworkResult("", false, "", -1, "", [], map[])
  }

  /** Success is exactly the 2xx range; truncation keeps -299..-200 at -2, so no negative code qualifies. */
  lemma {:induction false} SuccessIffTwoHundreds(r: NetworkResult)
    ensures r.StatusCodeIsSuccess() <==> 200 <= r.statusCode <= 299
  {
    var c := r.statusCode;
    var q := Quot(c, 100);
    if 200 <= c <= 299 {
      QuotOfNatural(c, 100);
    } else if c >= 300 {
      QuotOfNatural(c, 100);
      QuotMonotone(300, c, 100);
      assert Quot(300, 100) == 3;
    } else if c >= 0 {
      QuotOfNatural(c, 100);
      QuotMonotone(c, 199, 100);
      assert Quot(199, 100) == 1;
    } else {
      QuotMonotone(c, 0, 100);
      assert Quot(0, 100) == 0;
    }
  }

  lemma DefaultIsNotSuccess()
    ensures !DefaultResult().StatusCodeIsSuccess()
  {
    SuccessIffTwoHundreds(DefaultResult());
  }

  /** The named success codes pass the test; the named error codes do not. */
  lemma NamedCodes(r: NetworkResult)
    ensures r.statusCode in {HTTP_STATUS_CODE_OK, HTTP_STATUS_CODE_NO_CONTENT, HTTP_STATUS_CODE_PARTIAL_CONTENT} ==>
              r.StatusCodeIsSuccess()
    ensures r.statusCode in {HTTP_STATUS_CODE_FORBIDDEN, HTTP_STATUS_CODE_NOT_FOUND} ==> !r.StatusCodeIsSuccess()
  {
    SuccessIffTwoHundreds(r);
  }

  /** A 404 answer that arrived intact is not a failure, and not a success either. */
  lemma NotFoundIsNeitherFailNorSuccess(r: NetworkResult)
    requires r.statusCode == HTTP_STATUS_CODE_NOT_FOUND && !r.fail
    ensures !r.fail && !r.StatusCodeIsSuccess()
  {
    SuccessIffTwoHundreds(r);
  }
}
