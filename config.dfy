/** The constant tables of `config.py` that the utilities read. */
module Config {

  /** `PDF_CONFIG`: page, size and time limits for incoming PDFs. */
  const PdfConfig: map<string, nat> := map[
    "max_pages" := 50,
    "max_file_size_mb" := 100,
    "timeout_seconds" := 300
  ]

  /** `PDF_CONFIG["max_file_size_mb"]`. */
  const MaxFileSizeMb: nat := PdfConfig["max_file_size_mb"]

  /** `ERROR_CODES`: every code a domain error may carry, with its description. */
  const ErrorCodes: map<string, string> := map[
    "E-001" := "File not found",
    "E-002" := "Invalid file format",
    "E-003" := "Corrupted PDF",
    "E-004" := "Password protected PDF without password",
    "E-005" := "File too large",
    "E-101" := "Image conversion failed",
    "E-102" := "OCR engine error",
    "E-103" := "Memory error",
    "E-104" := "Timeout error",
    "E-201" := "No text detected",
    "E-202" := "Table extraction failed",
    "E-203" := "Invalid data format",
    "E-204" := "Missing required fields",
    "E-301" := "Cannot write output file",
    "E-302" := "Invalid output path",
    "E-303" := "Disk space full"
  ]
}
