/** Optional values: the TypeScript `T | null` and `T | undefined` shapes of the frontend. */
module Optional {

  datatype Option<+T> = None | Some(value: T)
}
