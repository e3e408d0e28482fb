/**
 * The stored shape of an identity: one row of the People table, read the
 * way the web layer reads it (every column by name, SQL NULL as `None`).
 */
module Records {
  import opened Wrappers

  /** A row maps each column name to its value rendered as text; `None` is SQL NULL. */
  type Row = map<string, Option<string>>

  /** The columns of the People table, base table and added category columns. */
  const Columns: set<string> := {
    "id", "type", "first_name", "last_name", "dob", "place_of_birth", "nationality", "gender",
    "email", "phone", "status", "status_changed_at",
    "national_id", "diploma_type", "diploma_year", "major", "entry_year", "student_status",
    "faculty_rank", "appointment_start", "primary_department", "secondary_departments",
    "office_location", "phd_institution", "research_areas", "contract_type", "contract_start",
    "contract_end", "teaching_hours", "staff_department", "job_title", "grade", "staff_entry_date"
  }

  /** A row read from the table carries every column. */
  predicate IsRow(r: Row) {
    Columns <= r.Keys
  }

  /** The value of column `c`, NULL when the row lacks it. */
  function Col(r: Row, c: string): Option<string> {
    if c in r then r[c] else None
  }
}
