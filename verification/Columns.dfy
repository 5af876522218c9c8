/** The column names generate_stats.py writes to a sheet. */
module Columns {
  const REQUIRED_COLUMNS := ["build_link", "time", "date", "revision", "angle_revision", "duplicate"]

  const MAIN_RESULT_COLUMNS := ["Passed", "Failed", "Skipped", "Not Supported", "Exception", "Crashed"]
}
