/** The message catalog, shared by the build script and the runtime locale switch. */
module Catalogs {
  /** A message catalog: message id -> localized text. */
  type Catalog = map<string, string>
}
