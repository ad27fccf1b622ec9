/** A CSV report is the sequence of rows handed to the writer, header first. */
module Csv {
  type Row = seq<string>
}
