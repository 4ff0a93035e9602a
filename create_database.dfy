/**
 * `handle_create_database`: the ordered admission checks of CREATE DATABASE (session
 * user, create-db privilege, existence with IF NOT EXISTS, owner), the resource-group
 * default, the threshold notices, and the final write to the catalog.
 */
module CreateDatabase {
  import opened Wrappers

  /** A user as the user catalog records it. */
  datatype UserInfo = UserInfo(id: nat, canCreateDb: bool, isSuper: bool)

  /** What the catalog writer is asked to record for a new database. */
  datatype DatabaseInfo = DatabaseInfo(
    owner: nat,
    resourceGroup: string,
    barrierIntervalMs: Option<nat>,
    checkpointFrequency: Option<nat>)

  /** The session issuing the statement. */
  datatype Session = Session(userName: string, userId: nat)

  /**
   * The statement as parsed: the database and owner names already resolved, the
   * resource-group value still unresolved.
   */
  datatype CreateDatabaseStmt = CreateDatabaseStmt(
    name: string,
    ifNotExists: bool,
    owner: Option<string>,
    resourceGroup: Option<string>,
    barrierIntervalMs: Option<nat>,
    checkpointFrequency: Option<nat>)

  /**
   * What the handler takes from its surroundings: the two notice thresholds, the default
   * resource group, the resolution of a resource-group value (`None` when it is rejected,
   * `Some(None)` when it names the default) and whether the resource-group feature is licensed.
   */
  datatype Env = Env(
    noticeBarrierIntervalMs: nat,
    noticeCheckpointFrequency: nat,
    defaultResourceGroup: string,
    resolveResourceGroup: string -> Option<Option<string>>,
    resourceGroupLicensed: bool)

  datatype Notice =
    | DatabaseExists(name: string)
    | BarrierIntervalHigh(interval: nat, threshold: nat)
    | CheckpointFrequencyHigh(frequency: nat, threshold: nat)

  datatype ErrorKind =
    | SessionUserInvalid
    | CreateDbDenied
    | Duplicated(database: string)
    | OwnerNotFound(user: string)
    | ResourceGroupInvalid
    | ResourceGroupUnlicensed
    | CatalogWriteFailed

  /** What the handler decides before it writes: skip with a notice, or create. */
  datatype Plan =
    | Skip(notices: seq<Notice>)
    | Create(info: DatabaseInfo, notices: seq<Notice>)

  /** The session user may create databases: it holds the privilege or is a superuser. */
  predicate MayCreate(users: map<string, UserInfo>, s: Session) {
    s.userName in users && (users[s.userName].canCreateDb || users[s.userName].isSuper)
  }

  /** The owner of the new database: the named user's id, or the session user's id. */
  function ResolveOwner(users: map<string, UserInfo>, s: Session, owner: Option<string>): (r: Result<nat, ErrorKind>)
    ensures owner.None? ==> r == Ok(s.userId)
    ensures owner.Some? && owner.value in users ==> r == Ok(users[owner.value].id)
    ensures owner.Some? && owner.value !in users ==> r == Err(OwnerNotFound(owner.value))
  {
    match owner
    case None => Ok(s.userId)
    case Some(o) => if o in users then Ok(users[o].id) else Err(OwnerNotFound(o))
  }

  /**
   * The resource group of the new database: a given value must resolve and, when it names
   * a group other than the default, the feature must be licensed; no value or the default
   * value yields the default group.
   */
  function ResolveResourceGroup(env: Env, value: Option<string>): (r: Result<string, ErrorKind>)
    ensures value.None? ==> r == Ok(env.defaultResourceGroup)
    ensures r.Ok? && r.value != env.defaultResourceGroup ==>
              value.Some? && env.resolveResourceGroup(value.value) == Some(Some(r.value)) && env.resourceGroupLicensed
    ensures value.Some? && env.resolveResourceGroup(value.value) == Some(None) ==> r == Ok(env.defaultResourceGroup)
    ensures r == Err(ResourceGroupInvalid) <==> value.Some? && env.resolveResourceGroup(value.value).None?
    ensures r == Err(ResourceGroupUnlicensed) <==>
              value.Some? && env.resolveResourceGroup(value.value).Some? && env.resolveResourceGroup(value.value).value.Some?
              && !env.resourceGroupLicensed
    ensures r.Ok? && value.Some? && env.resolveResourceGroup(value.value).Some? && env.resolveResourceGroup(value.value).value.Some? ==>
              env.resourceGroupLicensed && r.value == env.resolveResourceGroup(value.value).value.value
  {
    match value
    case None => Ok(env.defaultResourceGroup)
    case Some(v) =>
      match env.resolveResourceGroup(v)
      case None => Err(ResourceGroupInvalid)
      case Some(None) => Ok(env.defaultResourceGroup)
      case Some(Some(g)) => if env.resourceGroupLicensed then Ok(g) else Err(ResourceGroupUnlicensed)
  }

  /** The notices for a given barrier interval and checkpoint frequency, in that order. */
  function Notices(env: Env, barrierIntervalMs: Option<nat>, checkpointFrequency: Option<nat>): (r: seq<Notice>)
    ensures BarrierIntervalHigh(barrierIntervalMs.GetOr(0), env.noticeBarrierIntervalMs) in r <==>
              barrierIntervalMs.Some? && barrierIntervalMs.value >= env.noticeBarrierIntervalMs
    ensures CheckpointFrequencyHigh(checkpointFrequency.GetOr(0), env.noticeCheckpointFrequency) in r <==>
              checkpointFrequency.Some? && checkpointFrequency.value >= env.noticeCheckpointFrequency
    ensures |r| == (if barrierIntervalMs.Some? && barrierIntervalMs.value >= env.noticeBarrierIntervalMs then 1 else 0)
                 + (if checkpointFrequency.Some? && checkpointFrequency.value >= env.noticeCheckpointFrequency then 1 else 0)
    ensures barrierIntervalMs.Some? && barrierIntervalMs.value >= env.noticeBarrierIntervalMs ==>
              r[0] == BarrierIntervalHigh(barrierIntervalMs.value, env.noticeBarrierIntervalMs)
    ensures checkpointFrequency.Some? && checkpointFrequency.value >= env.noticeCheckpointFrequency ==>
              r[|r| - 1] == CheckpointFrequencyHigh(checkpointFrequency.value, env.noticeCheckpointFrequency)
    ensures forall n | n in r :: !n.DatabaseExists?
  {
    (if barrierIntervalMs.Some? && barrierIntervalMs.value >= env.noticeBarrierIntervalMs
     then [BarrierIntervalHigh(barrierIntervalMs.value, env.noticeBarrierIntervalMs)] else [])
    + (if checkpointFrequency.Some? && checkpointFrequency.value >= env.noticeCheckpointFrequency
       then [CheckpointFrequencyHigh(checkpointFrequency.value, env.noticeCheckpointFrequency)] else [])
  }

  /**
   * The admission decision of `handle_create_database`, checks in source order: session
   * user, privilege, existence, owner, resource group; then the notices.
   */
  function Decide(users: map<string, UserInfo>, databases: map<string, DatabaseInfo>,
                  s: Session, stmt: CreateDatabaseStmt, env: Env): (r: Result<Plan, ErrorKind>)
    ensures s.userName !in users ==> r == Err(SessionUserInvalid)
    ensures s.userName in users && !MayCreate(users, s) ==> r == Err(CreateDbDenied)
    ensures r.Ok? ==> MayCreate(users, s)
    ensures r.Ok? && r.value.Skip? <==> MayCreate(users, s) && stmt.name in databases && stmt.ifNotExists
    ensures r.Ok? && r.value.Skip? ==> r.value.notices == [DatabaseExists(stmt.name)]
    ensures MayCreate(users, s) && stmt.name in databases && !stmt.ifNotExists ==> r == Err(Duplicated(stmt.name))
    ensures r.Ok? && r.value.Create? ==>
              && stmt.name !in databases
              && ResolveOwner(users, s, stmt.owner) == Ok(r.value.info.owner)
              && ResolveResourceGroup(env, stmt.resourceGroup) == Ok(r.value.info.resourceGroup)
              && r.value.info.barrierIntervalMs == stmt.barrierIntervalMs
              && r.value.info.checkpointFrequency == stmt.checkpointFrequency
              && r.value.notices == Notices(env, stmt.barrierIntervalMs, stmt.checkpointFrequency)
    ensures MayCreate(users, s) && stmt.name !in databases
            && ResolveOwner(users, s, stmt.owner).Ok? && ResolveResourceGroup(env, stmt.resourceGroup).Ok? ==>
              r.Ok? && r.value.Create?
    ensures MayCreate(users, s) && stmt.name !in databases
            && ResolveOwner(users, s, stmt.owner).Ok? && ResolveResourceGroup(env, stmt.resourceGroup).Err? ==>
              r == Err(ResolveResourceGroup(env, stmt.resourceGroup).error)
  {
    if s.userName !in users then Err(SessionUserInvalid)
    else if !MayCreate(users, s) then Err(CreateDbDenied)
    else if stmt.name in databases then
      if stmt.ifNotExists then Ok(Skip([DatabaseExists(stmt.name)])) else Err(Duplicated(stmt.name))
    else
      match ResolveOwner(users, s, stmt.owner)
      case Err(e) => Err(e)
      case Ok(owner) =>
        match ResolveResourceGroup(env, stmt.resourceGroup)
        case Err(e) => Err(e)
        case Ok(group) =>
          Ok(Create(DatabaseInfo(owner, group, stmt.barrierIntervalMs, stmt.checkpointFrequency),
                    Notices(env, stmt.barrierIntervalMs, stmt.checkpointFrequency)))
  }

  /**
   * The privilege check comes before the existence check: a session user without the
   * privilege is refused whatever databases exist and whatever the statement asks.
   */
  lemma PrivilegeBeforeExistence(users: map<string, UserInfo>, d1: map<string, DatabaseInfo>, d2: map<string, DatabaseInfo>,
                                 s: Session, stmt1: CreateDatabaseStmt, stmt2: CreateDatabaseStmt, env: Env)
    requires s.userName in users && !MayCreate(users, s)
    ensures Decide(users, d1, s, stmt1, env) == Decide(users, d2, s, stmt2, env) == Err(CreateDbDenied)
  {
  }

  /**
   * The notices never block creation: two statements that differ only in their barrier
   * interval and checkpoint frequency are both admitted or both refused, with the same
   * owner and resource group.
   */
  lemma NoticesNeverBlock(users: map<string, UserInfo>, databases: map<string, DatabaseInfo>,
                          s: Session, stmt: CreateDatabaseStmt, env: Env, b: Option<nat>, c: Option<nat>)
    ensures var r1 := Decide(users, databases, s, stmt, env);
            var r2 := Decide(users, databases, s, stmt.(barrierIntervalMs := b, checkpointFrequency := c), env);
            && r1.Ok? == r2.Ok?
            && (r1.Err? ==> r1 == r2)
            && (r1.Ok? ==> r1.value.Create? == r2.value.Create?)
            && (r1.Ok? && r1.value.Create? ==>
                  r1.value.info.owner == r2.value.info.owner && r1.value.info.resourceGroup == r2.value.info.resourceGroup)
  {
  }

  /**
   * The owner is resolved after the existence check and before the resource group: an
   * admitted creation is owned by the named user, or by the session user when none is
   * named, and a named owner the catalog does not know refuses the statement whatever
   * its resource group.
   */
  lemma OwnerResolution(users: map<string, UserInfo>, databases: map<string, DatabaseInfo>,
                        s: Session, stmt: CreateDatabaseStmt, env: Env)
    ensures MayCreate(users, s) && stmt.name !in databases && stmt.owner.Some? && stmt.owner.value !in users ==>
              Decide(users, databases, s, stmt, env) == Err(OwnerNotFound(stmt.owner.value))
    ensures var r := Decide(users, databases, s, stmt, env);
            r.Ok? && r.value.Create? ==>
              && (stmt.owner.None? ==> r.value.info.owner == s.userId)
              && (stmt.owner.Some? ==> stmt.owner.value in users && r.value.info.owner == users[stmt.owner.value].id)
  {
  }

  /** The user and database catalogs the handler reads, and the database catalog it writes. */
  class Catalog {
    var users: map<string, UserInfo>
    var databases: map<string, DatabaseInfo>

    constructor(users: map<string, UserInfo>, databases: map<string, DatabaseInfo>)
      ensures this.users == users && this.databases == databases
    {
      this.users := users;
      this.databases := databases;
    }

    /**
     * The checks and notices of `handle_create_database`, up to the catalog write: each
     * check returns early in source order and the notices are accumulated as the response
     * builder is. Nothing is written.
     */
    method Admit(s: Session, stmt: CreateDatabaseStmt, env: Env) returns (p: Result<Plan, ErrorKind>)
      ensures p == Decide(users, databases, s, stmt, env)
    {
      if s.userName !in users {
        return Err(SessionUserInvalid);
      }
      var info := users[s.userName];
      if !info.canCreateDb && !info.isSuper {
        return Err(CreateDbDenied);
      }

      if stmt.name in databases {
        if stmt.ifNotExists {
          return Ok(Skip([DatabaseExists(stmt.name)]));
        } else {
          return Err(Duplicated(stmt.name));
        }
      }

      var owner: nat;
      if stmt.owner.Some? {
        if stmt.owner.value !in users {
          return Err(OwnerNotFound(stmt.owner.value));
        }
        owner := users[stmt.owner.value].id;
      } else {
        owner := s.userId;
      }

      var group: Option<string> := None;
      if stmt.resourceGroup.Some? {
        var resolved := env.resolveResourceGroup(stmt.resourceGroup.value);
        if resolved.None? {
          return Err(ResourceGroupInvalid);
        }
        group := resolved.value;
      }
      if group.Some? && !env.resourceGroupLicensed {
        return Err(ResourceGroupUnlicensed);
      }
      var resourceGroup := group.GetOr(env.defaultResourceGroup);
      assert ResolveOwner(users, s, stmt.owner) == Ok(owner);
      assert ResolveResourceGroup(env, stmt.resourceGroup) == Ok(resourceGroup);

      var notices := CollectNotices(env, stmt.barrierIntervalMs, stmt.checkpointFrequency);
      p := Ok(Create(DatabaseInfo(owner, resourceGroup, stmt.barrierIntervalMs, stmt.checkpointFrequency), notices));
    }

    /** The threshold notices, accumulated as the response builder is. */
    static method CollectNotices(env: Env, barrierIntervalMs: Option<nat>, checkpointFrequency: Option<nat>)
      returns (notices: seq<Notice>)
      ensures notices == Notices(env, barrierIntervalMs, checkpointFrequency)
    {
      notices := [];
      if barrierIntervalMs.Some? {
        var interval := barrierIntervalMs.value;
        if interval >= env.noticeBarrierIntervalMs {
          notices := notices + [BarrierIntervalHigh(interval, env.noticeBarrierIntervalMs)];
        }
      }
      if checkpointFrequency.Some? {
        var frequency := checkpointFrequency.value;
        if frequency >= env.noticeCheckpointFrequency {
          notices := notices + [CheckpointFrequencyHigh(frequency, env.noticeCheckpointFrequency)];
        }
      }
    }

    /**
     * `handle_create_database`: admit, then write a created database to the catalog when
     * the catalog writer succeeds (`writeSucceeds` stands for the outcome of that call).
     */
    method HandleCreateDatabase(s: Session, stmt: CreateDatabaseStmt, env: Env, writeSucceeds: bool)
      returns (r: Result<seq<Notice>, ErrorKind>)
      modifies this
      ensures users == old(users)
      ensures match Decide(old(users), old(databases), s, stmt, env)
              case Err(e) => r == Err(e) && databases == old(databases)
              case Ok(Skip(notices)) => r == Ok(notices) && databases == old(databases)
              case Ok(Create(info, notices)) =>
                if writeSucceeds then r == Ok(notices) && databases == old(databases)[stmt.name := info]
                else r == Err(CatalogWriteFailed) && databases == old(databases)
    {
      var p := Admit(s, stmt, env);
      match p
      case Err(e) =>
        r := Err(e);
      case Ok(Skip(notices)) =>
        r := Ok(notices);
      case Ok(Create(info, notices)) =>
        if !writeSucceeds {
          r := Err(CatalogWriteFailed);
        } else {
          databases := databases[stmt.name := info];
          r := Ok(notices);
        }
    }
  }

  /**
   * The scenario of the handler's test: a database created by a superuser session is then
   * present; a user with neither privilege is refused; a user with the create-db privilege
   * creates a second database owned by itself in the default resource group.
   */
  method CreateDatabaseScenario(env: Env)
    returns (r1: Result<seq<Notice>, ErrorKind>, r2: Result<seq<Notice>, ErrorKind>, r3: Result<seq<Notice>, ErrorKind>,
             databases: map<string, DatabaseInfo>)
    ensures r1.Ok? && r2 == Err(CreateDbDenied) && r3.Ok?
    ensures databases.Keys == {"database", "database2"}
    ensures databases["database"].owner == 1
    ensures databases["database2"].owner == 3 && databases["database2"].resourceGroup == env.defaultResourceGroup
  {
    var root := UserInfo(1, true, true);
    var c := new Catalog(map["root" := root], map[]);
    var plain := CreateDatabaseStmt("database", false, None, None, None, None);
    r1 := c.HandleCreateDatabase(Session("root", 1), plain, env, true);

    c.users := c.users["user" := UserInfo(2, false, false)];
    var second := plain.(name := "database2");
    r2 := c.HandleCreateDatabase(Session("user", 2), second, env, true);
    assert "database2" !in c.databases;

    c.users := c.users["user2" := UserInfo(3, true, false)];
    r3 := c.HandleCreateDatabase(Session("user2", 3), second, env, true);
    databases := c.databases;
  }
}
