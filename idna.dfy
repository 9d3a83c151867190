/**
 * The IDNA helpers of whois2/utils.py, which rest on Python's "idna" codec
 * (IDNA 2003: RFC 3490 with Punycode per RFC 3492).  The codec is not
 * modelled; its three uses are carried as functions of a record so that
 * every operation that needs them takes them as a parameter.
 */
module Idna {
  import opened Wrappers

  datatype Codec = Codec(
    /**
     * `normalize_domain_name`: strip, lower-case and encode to
     * ASCII-compatible form; `None` where the codec raises `UnicodeError`
     * (an empty label, or a label over 63 characters).
     */
    normalize: string -> Option<string>,
    /** `is_idna`: whether the name needed a non-trivial IDNA transformation. */
    isIdna: string -> bool,
    /** `unicodify`: the human-readable (decoded) form of a name. */
    unicodify: string -> string)
}
