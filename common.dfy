/** Shared result types of the web server model. */
module Common {

  datatype Option<T> = None | Some(value: T)

  datatype Result<T> = Success(value: T) | Failure(fault: Fault)

  /** The Python exceptions that escape the server's handlers and end the process. */
  datatype Fault =
    | NoDefaultHost               // KeyError: config["host"] has no "default" entry
    | OpenFailed(errno: int)      // an open error other than EACCES and ENOENT
    | UnknownMediaType(ext: string) // KeyError: config["media"] lacks the extension
    | UnknownSection(name: string)  // KeyError: a config line names a section that does not exist
    | ListenerLost                // the listener recreation branch calls a method that does not exist
}
