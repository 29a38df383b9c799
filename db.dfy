/** The MySQL connection singleton of the Streamlit pages (streamlit/pages/db.py). The class attribute
    `_instance` is the state of a `Registry`; connecting to the server is an outcome passed in. */
module Db {
  import opened Py

  /** A live MySQL connection, told apart by an opaque handle. */
  datatype Connection = Connection(handle: nat)

  /** A cursor of a connection; the class always asks for a buffered one. */
  datatype Cursor = Cursor(connection: Connection, buffered: bool)

  /** An instance: the connection and the cursor opened when it was constructed. Nothing assigns
      either attribute afterwards. */
  class DBConnection {
    const connection: Connection
    const cursor: Cursor := Cursor(connection, true)

    constructor(connection: Connection)
      ensures this.connection == connection
      ensures cursor == Cursor(connection, true)
    {
      this.connection := connection;
    }

    /** `get_cursor()`: the buffered cursor of the instance's own connection. */
    method GetCursor() returns (c: Cursor)
      ensures c == cursor && c.connection == connection && c.buffered
    {
      return cursor;
    }

    /** `get_connection()`: the connection opened at construction. */
    method GetConnection() returns (c: Connection)
      ensures c == connection && cursor.connection == c
    {
      return connection;
    }
  }

  const SINGLETON_ERROR := "This class is a singleton!"

  /** How an attempt to make the instance ends: with the instance, with the exception raised because
      one exists already, or with the exception of a failed connect. */
  datatype Creation = Created(db: DBConnection) | Singleton(message: string) | ConnectFailed

  /** The class attribute `DBConnection._instance`. */
  class Registry {
    var instance: Option<DBConnection>

    /** No instance when the class is defined. */
    constructor()
      ensures instance == None
    {
      instance := None;
    }

    /** `DBConnection()`: raises while an instance exists; otherwise connects and, only when that
        succeeds, records the new object as the instance. `connected` is the result of
        `mysql.connector.connect` (`None` when it raises). */
    method Construct(connected: Option<Connection>) returns (r: Creation)
      modifies this
      ensures old(instance).Some? ==> r == Singleton(SINGLETON_ERROR) && instance == old(instance)
      ensures old(instance).None? && connected.None? ==> r == ConnectFailed && instance == None
      ensures old(instance).None? && connected.Some? ==>
                && r.Created? && fresh(r.db)
                && r.db.connection == connected.value && r.db.cursor == Cursor(connected.value, true)
                && instance == Some(r.db)
    {
      if instance.Some? {
        return Singleton(SINGLETON_ERROR);
      }
      if connected.None? {
        return ConnectFailed;
      }
      var db := new DBConnection(connected.value);
      instance := Some(db);
      return Created(db);
    }

    /** `DBConnection.get_instance()`: the existing instance, unchanged, or else a newly constructed
        one. Whatever it returns is the instance afterwards, so every later call returns that same
        object, and the instance, once set, is never cleared. */
    method GetInstance(connected: Option<Connection>) returns (r: Creation)
      modifies this
      ensures old(instance).Some? ==> r == Created(old(instance).value) && instance == old(instance)
      ensures old(instance).None? && connected.None? ==> r == ConnectFailed && instance == None
      ensures old(instance).None? && connected.Some? ==>
                && r.Created? && fresh(r.db)
                && r.db.connection == connected.value && r.db.cursor == Cursor(connected.value, true)
                && instance == Some(r.db)
      ensures r.Created? ==> instance == Some(r.db)
      ensures !r.Singleton?
    {
      if instance.None? {
        var made := Construct(connected);
        return made;
      }
      return Created(instance.value);
    }
  }
}
