/**
 * The `URLRequest` each operation sends: method POST, a form-urlencoded
 * Content-Type, a Content-Length that is the decimal byte count of the body,
 * and the body as UTF-8 bytes, addressed to one of the data source's scripts.
 */
module Requests {
  import opened Wrappers
  import opened DataSources
  import Text
  import Utf8
  import PercentEncoding
  import FormBody

  /** `URL(string: base)!.appendingPathComponent(path)`, kept symbolic. */
  datatype Endpoint = Endpoint(base: string, path: string)

  datatype Request = Request(url: Endpoint, httpMethod: string, headers: map<string, string>, body: seq<Utf8.Byte>)

  const FormContentType := "application/x-www-form-urlencoded"

  /**
   * The framing every operation applies to its post string: the body is its UTF-8
   * encoding, the byte count is written in decimal as Content-Length.
   */
  function FormPost(url: Endpoint, postString: string): (r: Request)
    ensures r.url == url && r.httpMethod == "POST"
    ensures r.headers.Keys == {"Content-Length", "Content-Type"}
    ensures "Content-Type" in r.headers && r.headers["Content-Type"] == FormContentType
    ensures r.body == Utf8.Encode(postString) && Utf8.Decode(r.body) == Some(postString)
    ensures r.headers["Content-Length"] == Text.Decimal(|r.body|)
    ensures Text.AllDigits(r.headers["Content-Length"])
    ensures Text.ParseDecimal(r.headers["Content-Length"]) == |r.body|
  {
    var postData := Utf8.Encode(postString);
    Text.DecimalRoundTrip(|postData|);
    Utf8.DecodeEncode(postString);
    Request(url, "POST", map["Content-Length" := Text.Decimal(|postData|), "Content-Type" := FormContentType], postData)
  }

  /** The request of `createNewUser(from:email:)`. */
  function CreateUserRequest(ds: DataSource, sqlStatement: string, email: string): (r: Request)
    ensures r == FormPost(Endpoint(ds.website, ds.createUserFile),
                          FormBody.CreateUserBody(ds, email, PercentEncoding.AddingPercentEncoding(sqlStatement)))
    ensures r.url == Endpoint(ds.website, ds.createUserFile) && r.httpMethod == "POST"
    ensures "Content-Type" in r.headers && r.headers["Content-Type"] == FormContentType
    ensures Utf8.Decode(r.body) == Some(FormBody.CreateUserBody(ds, email, PercentEncoding.AddingPercentEncoding(sqlStatement)))
  {
    FormPost(Endpoint(ds.website, ds.createUserFile),
             FormBody.CreateUserBody(ds, email, PercentEncoding.AddingPercentEncoding(sqlStatement)))
  }

  /** The request of `upload(customPOSTQueries:)`, given the body its loop built. */
  function KeyValueRequest(ds: DataSource, postString: string): (r: Request)
    ensures r == FormPost(Endpoint(ds.website, ds.customKeyValuesFile), postString)
    ensures r.url == Endpoint(ds.website, ds.customKeyValuesFile) && r.httpMethod == "POST"
    ensures "Content-Type" in r.headers && r.headers["Content-Type"] == FormContentType
    ensures Utf8.Decode(r.body) == Some(postString)
  {
    FormPost(Endpoint(ds.website, ds.customKeyValuesFile), postString)
  }

  /** The request of `upload(sqlStatement:)`. */
  function StatementRequest(ds: DataSource, sqlStatement: string): (r: Request)
    ensures r == FormPost(Endpoint(ds.website, ds.writeFile),
                          FormBody.StatementBody(ds, PercentEncoding.AddingPercentEncoding(sqlStatement)))
    ensures r.url == Endpoint(ds.website, ds.writeFile) && r.httpMethod == "POST"
    ensures "Content-Type" in r.headers && r.headers["Content-Type"] == FormContentType
    ensures Utf8.Decode(r.body) == Some(FormBody.StatementBody(ds, PercentEncoding.AddingPercentEncoding(sqlStatement)))
  {
    FormPost(Endpoint(ds.website, ds.writeFile),
             FormBody.StatementBody(ds, PercentEncoding.AddingPercentEncoding(sqlStatement)))
  }

  /** The fields a server reads from a request: UTF-8 decode the body, then split it. */
  function ReadForm(r: Request): Option<seq<FormBody.Pair>> {
    match Utf8.Decode(r.body)
    case None => None
    case Some(text) => FormBody.ParseForm(text)
  }

  /** What a server makes of the SQLQuery field: percent-decode it, then read the bytes as UTF-8. */
  function ReadQuery(q: string): Option<string> {
    match PercentEncoding.Decode(q)
    case None => None
    case Some(bytes) => Utf8.Decode(bytes)
  }

  /**
   * End to end: the write script receives the database password, the user name
   * and a query field that decodes to exactly the statement, at the write path.
   */
  lemma StatementRequestDelivers(ds: DataSource, sqlStatement: string)
    requires '&' !in ds.databaseUserPass && '&' !in ds.websiteUserName
    ensures StatementRequest(ds, sqlStatement).url == Endpoint(ds.website, ds.writeFile)
    ensures ReadForm(StatementRequest(ds, sqlStatement)) ==
      Some([("Password", ds.databaseUserPass), ("Username", ds.websiteUserName),
            ("SQLQuery", PercentEncoding.Encode(sqlStatement))])
    ensures ReadQuery(PercentEncoding.Encode(sqlStatement)) == Some(sqlStatement)
  {
    FormBody.ParseStatementBody(ds, sqlStatement);
    PercentEncoding.RecoverStatement(sqlStatement);
  }

  /** End to end for user creation: the email arrives verbatim and the query decodes to the statement. */
  lemma CreateUserRequestDelivers(ds: DataSource, sqlStatement: string, email: string)
    requires '&' !in ds.databaseUserPass && '&' !in ds.websiteUserName && '&' !in email
    ensures CreateUserRequest(ds, sqlStatement, email).url == Endpoint(ds.website, ds.createUserFile)
    ensures ReadForm(CreateUserRequest(ds, sqlStatement, email)) ==
      Some([("Password", ds.databaseUserPass), ("Username", ds.websiteUserName), ("Email", email),
            ("SQLQuery", PercentEncoding.Encode(sqlStatement))])
    ensures ReadQuery(PercentEncoding.Encode(sqlStatement)) == Some(sqlStatement)
  {
    FormBody.ParseCreateUserBody(ds, email, sqlStatement);
    PercentEncoding.RecoverStatement(sqlStatement);
  }

  /** For an ASCII body (ASCII credentials and email), Content-Length is the body's character count. */
  lemma AsciiContentLength(url: Endpoint, postString: string)
    requires Utf8.IsAscii(postString)
    ensures Text.ParseDecimal(FormPost(url, postString).headers["Content-Length"]) == |postString|
  {
    Utf8.EncodeAscii(postString);
  }

  lemma ExampleInterpolation(password: string, user: string, query: string)
    requires password == "p" && user == "u" && query == "SELECT%201"
    ensures "Password=" + password + "&Username=" + user + "&SQLQuery=" + query ==
      "Password=p&Username=u&SQLQuery=SELECT%201"
  {
    assert "Password=" + password + "&Username=" == "Password=p&Username=";
    assert "Password=p&Username=" + user + "&SQLQuery=" == "Password=p&Username=u&SQLQuery=";
  }

  /** Example: password `p`, user `u`, statement `SELECT 1`. */
  lemma ExampleStatementBody(ds: DataSource, sqlStatement: string)
    requires ds.databaseUserPass == "p" && ds.websiteUserName == "u" && sqlStatement == "SELECT 1"
    ensures FormBody.StatementBody(ds, PercentEncoding.AddingPercentEncoding(sqlStatement)) ==
      "Password=p&Username=u&SQLQuery=SELECT%201"
  {
    PercentEncoding.EncodeSelectOne(sqlStatement);
    var query := FormBody.SqlQueryValue(PercentEncoding.AddingPercentEncoding(sqlStatement));
    assert query == "SELECT%201";
    ExampleInterpolation(ds.databaseUserPass, ds.websiteUserName, query);
  }
}
