/**
 * The uploader object: it creates its URL session lazily on first use and
 * resumes one data task per call on that session; each task carries the
 * request and what its completion handler captured.  It also answers every
 * authentication challenge with the website credential.
 */
module Uploader {
  import opened Wrappers
  import opened DataSources
  import Responses
  import Requests
  import FormBody

  /** The session configuration `MSFrameworkManager.default.defaultSession` holds when it is read. */
  datatype SessionConfiguration = SessionConfiguration(identifier: string)

  /** A URL session made from a configuration, with the uploader as delegate and no delegate queue. */
  datatype Session = Session(configuration: SessionConfiguration)

  datatype Operation = CreateUser | CustomQueries | Statement

  /** What a completion handler is called with. */
  datatype Completion = UserCreated(user: Option<string>) | Uploaded(success: bool)

  /** A resumed data task: its session, its request, and the operation and website its handler captured. */
  datatype Task = Task(session: Session, request: Requests.Request, operation: Operation, website: string) {

    /** The value the task's completion handler delivers for a transport outcome. */
    function Complete(o: Responses.TransportOutcome): (c: Completion)
      ensures operation == CreateUser <==> c.UserCreated?
      ensures c.UserCreated? ==> c.user == Responses.CreateUserResult(website, o)
      ensures (c.Uploaded? && operation == CustomQueries) ==> c.success == Responses.KeyValueResult(website, o)
      ensures (c.Uploaded? && operation == Statement) ==> c.success == Responses.StatementResult(website, o)
    {
      match operation
      case CreateUser => UserCreated(Responses.CreateUserResult(website, o))
      case CustomQueries => Uploaded(Responses.KeyValueResult(website, o))
      case Statement => Uploaded(Responses.StatementResult(website, o))
    }
  }

  class DataUploader {
    var uploadSession: Option<Session>
    var tasks: seq<Task>

    /** Every task so far was resumed on the one session this uploader holds. */
    ghost predicate Valid()
      reads this
    {
      forall i | 0 <= i < |tasks| :: uploadSession == Some(tasks[i].session)
    }

    constructor ()
      ensures Valid() && uploadSession == None && tasks == []
    {
      uploadSession := None;
      tasks := [];
    }

    /** The lazy `uploadSession`: made from the configuration of the first access, then kept. */
    method UploadSession(defaultSession: SessionConfiguration) returns (s: Session)
      requires Valid()
      modifies this
      ensures Valid() && tasks == old(tasks) && uploadSession == Some(s)
      ensures s == if old(uploadSession).Some? then old(uploadSession).value else Session(defaultSession)
    {
      if uploadSession.None? {
        uploadSession := Some(Session(defaultSession));
      }
      s := uploadSession.value;
    }

    /** `createNewUser(from:email:)`; a missing data source halts before anything happens. */
    method CreateNewUser(dataSource: Option<DataSource>, defaultSession: SessionConfiguration,
                         sqlStatement: string, email: string)
      requires dataSource.Some?
      requires Valid()
      modifies this
      ensures Valid()
      ensures uploadSession == if old(uploadSession).Some? then old(uploadSession) else Some(Session(defaultSession))
      ensures tasks == old(tasks) + [Task(uploadSession.value,
        Requests.CreateUserRequest(dataSource.value, sqlStatement, email), CreateUser, dataSource.value.website)]
    {
      var ds := dataSource.value;
      var request := Requests.CreateUserRequest(ds, sqlStatement, email);
      var session := UploadSession(defaultSession);
      tasks := tasks + [Task(session, request, CreateUser, ds.website)];
    }

    /** `upload(customPOSTQueries:)`, with the dictionary's iteration order made explicit. */
    method UploadCustomQueries(dataSource: Option<DataSource>, defaultSession: SessionConfiguration,
                               customPOSTQueries: map<string, string>, order: seq<string>)
      requires dataSource.Some?
      requires |customPOSTQueries| > 0 && FormBody.IsIterationOrder(order, customPOSTQueries)
      requires Valid()
      modifies this
      ensures Valid()
      ensures uploadSession == if old(uploadSession).Some? then old(uploadSession) else Some(Session(defaultSession))
      ensures tasks == old(tasks) + [Task(uploadSession.value,
        Requests.KeyValueRequest(dataSource.value, FormBody.Joined(FormBody.PairsInOrder(customPOSTQueries, order))),
        CustomQueries, dataSource.value.website)]
    {
      var ds := dataSource.value;
      var postString := FormBody.KeyValueBody(customPOSTQueries, order);
      var request := Requests.KeyValueRequest(ds, postString);
      var session := UploadSession(defaultSession);
      tasks := tasks + [Task(session, request, CustomQueries, ds.website)];
    }

    /** `upload(sqlStatement:)`. */
    method UploadSqlStatement(dataSource: Option<DataSource>, defaultSession: SessionConfiguration,
                              sqlStatement: string)
      requires dataSource.Some?
      requires Valid()
      modifies this
      ensures Valid()
      ensures uploadSession == if old(uploadSession).Some? then old(uploadSession) else Some(Session(defaultSession))
      ensures tasks == old(tasks) + [Task(uploadSession.value,
        Requests.StatementRequest(dataSource.value, sqlStatement), Statement, dataSource.value.website)]
    {
      var ds := dataSource.value;
      var request := Requests.StatementRequest(ds, sqlStatement);
      var session := UploadSession(defaultSession);
      tasks := tasks + [Task(session, request, Statement, ds.website)];
    }
  }

  /**
   * Two calls on a fresh uploader: the session is made once, from the
   * configuration current at the first call, and both tasks share it.
   */
  method SharedSessionScenario(ds: DataSource, first: SessionConfiguration, later: SessionConfiguration,
                               sqlStatement: string, email: string)
    returns (t1: Task, t2: Task)
    ensures t1.session == t2.session == Session(first)
    ensures t1.request == Requests.StatementRequest(ds, sqlStatement) && t1.operation == Statement
    ensures t2.request == Requests.CreateUserRequest(ds, sqlStatement, email) && t2.operation == CreateUser
  {
    var uploader := new DataUploader();
    uploader.UploadSqlStatement(Some(ds), first, sqlStatement);
    uploader.CreateNewUser(Some(ds), later, sqlStatement, email);
    t1, t2 := uploader.tasks[0], uploader.tasks[1];
  }

  // ---------------------------------------------------------------------------
  // The session delegate's answer to an authentication challenge.

  /** What a challenge names; the uploader looks at none of it. */
  datatype Challenge = Challenge(host: string, realm: string, authenticationMethod: string)

  datatype Disposition = UseCredential | PerformDefaultHandling | CancelAuthenticationChallenge | RejectProtectionSpace

  datatype Persistence = NoPersistence | ForSession | Permanent | Synchronizable

  datatype Credential = Credential(user: string, password: string, persistence: Persistence)

  /** `urlSession(_:didReceive:completionHandler:)`: always the website credential, kept for the session. */
  function AnswerChallenge(dataSource: Option<DataSource>, challenge: Challenge): (r: (Disposition, Credential))
    requires dataSource.Some?
    ensures r.0 == UseCredential && r.1.persistence == ForSession
    ensures r.1.user == dataSource.value.websiteUserName && r.1.password == dataSource.value.websiteUserPass
  {
    (UseCredential, Credential(dataSource.value.websiteUserName, dataSource.value.websiteUserPass, ForSession))
  }

  /**
   * The challenge answer carries the website password while the request bodies
   * carry the database password, and no challenge changes the answer.
   */
  lemma ChallengeUsesWebsitePassword(ds: DataSource, sqlStatement: string, c1: Challenge, c2: Challenge)
    requires '&' !in ds.databaseUserPass && '&' !in ds.websiteUserName
    ensures AnswerChallenge(Some(ds), c1) == AnswerChallenge(Some(ds), c2)
    ensures AnswerChallenge(Some(ds), c1).1.password == ds.websiteUserPass
    ensures var fields := Requests.ReadForm(Requests.StatementRequest(ds, sqlStatement));
      fields.Some? && |fields.value| == 3 && fields.value[0] == ("Password", ds.databaseUserPass)
  {
    Requests.StatementRequestDelivers(ds, sqlStatement);
  }
}
