/**
  Plain data shared by the pipeline's stages.
*/
module Types {

  /** `Config` (src/lib.rs): the API key and a byte chunk size.  `process_pdf`
      reads neither field itself; the key only reaches the remote client. */
  datatype Config = Config(apiKey: string, chunkSize: nat)

  /** What one `extract_page_range` call returns: the extracted text, or an
      error whose `to_string()` rendering is `message`. */
  datatype Outcome = Ok(text: string) | Err(message: string)
}
