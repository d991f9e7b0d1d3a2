/**
  What the pipeline gets from outside: the JSON values it produces, and
  the library and filesystem calls it makes, taken as given functions.
 */
module Env {
  import opened Wrappers

  /** A JSON value of the result: a string, or a list of strings. */
  datatype Value = Str(s: string) | List(items: seq<string>)

  /**
    The calls the pipeline makes into code that is not part of this model:
    - `unicode`: bibtexparser's `convert_to_unicode`, on one field value;
    - `getname`: bibtexparser's `getnames`, on one name;
    - `decode`: `base64.b64decode`, `PlistReader(...).parse()` and
      `['$objects'][4]` on one `bdsk-file-N` blob; `None` when any of
      them raises;
    - `fileExists`: `os.path.exists(os.path.join(PDF_DIRECTORY, name))`;
    - `urlFor`: `url_for('fetch_pdf', filename=name)`.
   */
  datatype Oracles = Oracles(
    unicode: string -> string,
    getname: string -> string,
    decode: string -> Option<string>,
    fileExists: string -> bool,
    urlFor: string -> string)
}
