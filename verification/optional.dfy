/** Optional values: `None` where the Python code produces nothing or fails to parse. */
module Optional {

  datatype Option<T> = None | Some(value: T)
}
