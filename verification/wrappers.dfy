/** Optional values and the plugin's error results. */
module Wrappers {

  datatype Option<+T> = None | Some(value: T)

  /** The one failure the plugin raises: a moodle_exception carrying the
      language string 'auth_clcdbcantconnect', thrown by every operation that
      connects when the plugin is not configured, and by `get_userlist` when
      its query fails (`get_userinfo` instead treats a failed query as no
      row). */
  datatype AuthError = CantConnect

  datatype Result<+T> = Ok(value: T) | Err(error: AuthError)
}
