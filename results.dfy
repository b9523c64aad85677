/** Optional values, and the outcome of an operation that may raise one of
    the exceptions the conversion pipeline can meet. */
module Results {

  datatype Option<T> = None | Some(value: T)

  /** The exceptions that escape the pipeline.
      - `XmlSyntaxError`: the XML parser rejected a content part (lxml's
        `XMLSyntaxError`), the one exception the driver catches;
      - `MissingItem(id)`: a spine entry names an item the package does not
        hold, so `.content` is read from `None` (an `AttributeError`);
      - `IndexError`: a metadata field read by the driver has no value. */
  datatype Error = XmlSyntaxError | MissingItem(id: string) | IndexError

  datatype Result<T> = Ok(value: T) | Err(error: Error)
}
